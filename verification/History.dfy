/** Crash consistency: replaying what the engine published rebuilds the engine's book. */
module EngineReplay {
  import opened Types
  import opened PriorityList
  import opened Thinning
  import opened Book
  import opened BookInvariant
  import opened Engine
  import opened EngineInvariant
  import opened Replay
  import opened MatchReplay

  // ----- the exact condition ------------------------------------------------------------------------

  /** A replace is faithful if it is refused, cancels, or gives up its place and then matches faithfully. */
  predicate ReplaceFaithful(e: Engine, id: nat, price: int, quantity: nat, capacity: nat) {
    || ReplaceRefused(e.book, id, price, quantity)
    || quantity == 0
    || (&& LosesPriority(e.book, id, price, quantity)
        && (|| e.priority == MAX_PRIORITY
            || quantity == e.book.Lookup(id).quantity - e.book.Lookup(id).remaining
            || Faithful(CancelOrder(e.book, id), Reissue(e.book.Lookup(id), price, quantity, e.priority), e.policy,
                        capacity)))
  }

  predicate StepFaithful(e: Engine, c: Command, capacity: nat) {
    match c
    case SetPolicy(_) => true
    case Cancel(_, _, _) => true
    case Process(order, healthy, _) =>
      e.state.Halted? || !healthy || e.priority == MAX_PRIORITY
      || Faithful(e.book, order.(priority := e.priority), e.policy, capacity)
    case Replace(id, price, quantity, healthy, _) =>
      e.state.Halted? || !healthy || ReplaceFaithful(e, id, price, quantity, capacity)
  }

  // ----- recovered states -----------------------------------------------------------------------------

  /** The smallest priority recovery will hand out next. */
  function Ceiling(r: Replayer): nat { if r.newOrders == 0 then 0 else r.maxPriority + 1 }

  /** A replayed state the engine can resume from. */
  ghost predicate Sound(r: Replayer, capacity: nat) {
    && Live(r.book) && PrioritiesBelow(r.book, Ceiling(r)) && Ceiling(r) <= MAX_PRIORITY && r.book.Count() <= capacity
    && r.lastSequence + 1 < U64
  }

  /** Live engine and replayed journal agree. */
  ghost predicate Linked(e: Engine, r: Replayer, capacity: nat) {
    Sound(r, capacity) && e.book == r.book && Ceiling(r) <= e.priority <= MAX_PRIORITY && Next(r, e.sequence)
  }

  lemma LinkedSane(e: Engine, r: Replayer, capacity: nat)
    requires Linked(e, r, capacity)
    ensures Sane(e, capacity) && WellFilled(e.book)
  {}

  lemma ThinLive(b: Book, side: Side, q: seq<Order>, n: nat)
    requires Live(b) && PrioritiesBelow(b, n) && Thinned(q, b.Queue(side)) && Alive(q)
    ensures Live(b.With(side, q)) && PrioritiesBelow(b.With(side, q), n) && b.With(side, q).Count() <= b.Count()
  {
    ThinKeeps(b, side, q);
    ThinIdentified(b, side, q, n);
    forall x | x in q ensures x.trader < U32 { var o := Origin(q, b.Queue(side), x); }
  }

  lemma CancelLive(b: Book, id: nat, n: nat)
    requires Live(b) && PrioritiesBelow(b, n)
    ensures Live(CancelOrder(b, id)) && PrioritiesBelow(CancelOrder(b, id), n)
    ensures CancelOrder(b, id).Count() <= b.Count()
  {
    if b.Contains(id) {
      var q := b.Queue(b.SideOf(id));
      RemovedAt(q, Position(q, id));
      AliveAfter(q, Position(q, id), 0);
      ThinLive(b, b.SideOf(id), Remove(q, id), n);
    }
  }

  lemma FillLive(b: Book, id: nat, quantity: nat, n: nat)
    requires Live(b) && PrioritiesBelow(b, n)
    ensures Live(ApplyFill(b, id, quantity)) && PrioritiesBelow(ApplyFill(b, id, quantity), n)
    ensures ApplyFill(b, id, quantity).Count() <= b.Count()
  {
    if CanFill(b, id, quantity) {
      var q := b.Queue(b.SideOf(id));
      FilledAt(q, Position(q, id), quantity);
      AliveAfter(q, Position(q, id), quantity);
      ThinLive(b, b.SideOf(id), FillAt(q, Position(q, id), quantity), n);
    }
  }

  /** Cancellations and fills keep a replayed state sound. */
  lemma RemovalSound(r: Replayer, e: Event, capacity: nat)
    requires Sound(r, capacity) && !e.Accepted? && Apply(r, e, capacity).verdict.Done? && e.sequence + 1 < U64
    ensures Sound(Apply(r, e, capacity).at, capacity)
  {
    match e
    case Traded(_, _, id, _, _, _, n, _, _) => FillLive(r.book, id, n, Ceiling(r));
    case Cancelled(_, _, id, _, _, _) => CancelLive(r.book, id, Ceiling(r));
    case Rejected(_, _, _, _, _) =>
  }

  /** An order that rests in a live book leaves it live, provided nothing crosses. */
  lemma AddLive(b: Book, o: Order, n: nat, capacity: nat)
    requires Live(b) && PrioritiesBelow(b, n) && CanRest(b, o, capacity) && BookOk(AddOrder(b, o, capacity))
    requires o.id > 0 && 0 < o.trader < U32 && n <= o.priority
    ensures var b' := AddOrder(b, o, capacity);
            Live(b') && PrioritiesBelow(b', o.priority + 1) && b'.Count() <= capacity
  {
    hide BookOk;
    var q := b.Queue(o.side);
    forall x | x in Insert(o.side, q, o) ensures x in q || x == o { InsertMembers(o.side, q, o, x); }
  }

  /** So does an acceptance that leaves the book uncrossed. */
  lemma AcceptanceSound(r: Replayer, e: Event, capacity: nat)
    requires Sound(r, capacity) && e.Accepted? && Apply(r, e, capacity).verdict.Done? && e.sequence + 1 < U64
    requires e.trader < U32 && e.priority < MAX_PRIORITY && BookOk(Apply(r, e, capacity).at.book)
    ensures Sound(Apply(r, e, capacity).at, capacity)
  {
    hide Live, PrioritiesBelow, BookOk, AddOrder;
    AddLive(r.book, Restored(e), Ceiling(r), capacity);
  }

  // ----- the shape of what one command publishes --------------------------------------------------------

  ghost predicate Numbered(es: seq<Event>, sequence: nat) {
    forall i :: 0 <= i < |es| ==> es[i].sequence == sequence + i
  }

  /** Only the last event can be an acceptance, and its priority is below `n`. */
  ghost predicate AcceptsLast(es: seq<Event>, n: nat) {
    && (forall i :: 0 <= i < |es| - 1 ==> !es[i].Accepted?)
    && (forall i :: 0 <= i < |es| && es[i].Accepted? ==> es[i].trader < U32 && es[i].priority < n)
  }

  lemma {:induction false} TradeEventsShape(o: Order, fs: seq<Fill>, sequence: nat, now: nat)
    ensures Numbered(TradeEvents(o, fs, sequence, now), sequence)
    ensures forall i :: 0 <= i < |fs| ==> TradeEvents(o, fs, sequence, now)[i].Traded?
  {
    if fs != [] { TradeEventsShape(o, fs[1..], sequence + 1, now); }
  }

  lemma MatchEventsShape(o: Order, fs: seq<Fill>, left: nat, sequence: nat, now: nat)
    ensures Numbered(MatchEvents(o, fs, left, sequence, now), sequence)
    ensures AcceptsLast(MatchEvents(o, fs, left, sequence, now), o.priority + 1)
  {
    TradeEventsShape(o, fs, sequence, now);
  }

  lemma StepShape(e: Engine, c: Command, capacity: nat)
    requires Sane(e, capacity) && WellFilled(e.book)
    ensures var s := Step(e, c, capacity);
            && Numbered(s.events, e.sequence) && AcceptsLast(s.events, s.engine.priority)
            && s.engine.sequence == e.sequence + |s.events| && e.priority <= s.engine.priority <= MAX_PRIORITY
  {
    match c
    case SetPolicy(_) =>
    case Cancel(_, _, _) =>
    case Process(order, _, now) =>
      var o := order.(priority := e.priority);
      var m := Match(e.book, o, e.policy, capacity);
      MatchEventsShape(o, m.fills, m.left, e.sequence, now);
    case Replace(id, price, quantity, _, now) => ReplaceShape(e, id, price, quantity, now, capacity);
  }

  lemma ReplaceShape(e: Engine, id: nat, price: int, quantity: nat, now: nat, capacity: nat)
    requires Sane(e, capacity) && WellFilled(e.book)
    ensures var s := DoReplace(e, id, price, quantity, now, capacity);
            && Numbered(s.events, e.sequence) && AcceptsLast(s.events, s.engine.priority)
            && s.engine.sequence == e.sequence + |s.events| && e.priority <= s.engine.priority <= MAX_PRIORITY
  {
    var renewed := LosesPriority(e.book, id, price, quantity);
    if ReplaceRefused(e.book, id, price, quantity) || (renewed && e.priority == MAX_PRIORITY) {
      ReplaceTurnedAway(e, id, price, quantity, now, capacity);
    } else {
      LookupSane(e.book, id, e.priority);
      hide ReplaceOrder, DoReplace, BookOk, MatchEvents, Numbered, AcceptsLast, WellFilled, Identified;
      ReplacePublishes(e, id, price, quantity, now, capacity);
      var was := e.book.Lookup(id);
      var priority := if renewed then e.priority else was.priority;
      var r := ReplaceOrder(e.book, id, price, quantity, priority, e.policy, capacity);
      var issued := if quantity == 0 then was else Reissue(was, price, quantity, priority);
      var left := if quantity > 0 then r.left else 0;
      MatchEventsShape(issued, r.fills, left, e.sequence + 1, now);
      CancelThenShape(CancelEvent(was, e.sequence, now), MatchEvents(issued, r.fills, left, e.sequence + 1, now),
                      e.sequence, issued.priority + 1,
                      DoReplace(e, id, price, quantity, now, capacity).engine.priority);
    }
  }

  lemma CancelThenShape(x: Event, es: seq<Event>, sequence: nat, m: nat, n: nat)
    requires x.Cancelled? && x.sequence == sequence && Numbered(es, sequence + 1) && AcceptsLast(es, m) && m <= n
    ensures Numbered([x] + es, sequence) && AcceptsLast([x] + es, n)
  {}

  /** A replayable run of one command's events ends in a sound state with the counters in step. */
  lemma {:induction false} EventsSound(r: Replayer, es: seq<Event>, sequence: nat, n: nat, capacity: nat)
    requires Sound(r, capacity) && ReplayAll(r, es, capacity).verdict.Done? && sequence + |es| < U64
    requires Numbered(es, sequence) && AcceptsLast(es, n) && Ceiling(r) <= n <= MAX_PRIORITY && Next(r, sequence)
    requires es != [] && es[|es| - 1].Accepted? ==> BookOk(ReplayAll(r, es, capacity).at.book)
    ensures var r' := ReplayAll(r, es, capacity).at;
            Sound(r', capacity) && Ceiling(r') <= n && Next(r', sequence + |es|)
    decreases |es|
  {
    hide Apply, Sound;
    if es != [] {
      var e, r1 := es[0], Apply(r, es[0], capacity).at;
      Applied(r, e, capacity);
      assert forall i :: 1 <= i < |es| ==> es[i] == es[1..][i - 1];
      if e.Accepted? {
        assert |es| == 1 && es[1..] == [];
        AcceptanceSound(r, e, capacity);
      } else {
        RemovalSound(r, e, capacity);
        EventsSound(r1, es[1..], sequence + 1, n, capacity);
      }
    }
  }

  // ----- one command -----------------------------------------------------------------------------------

  /** Cancelling first: what remains to be rebuilt is rebuilt from the book without the order. */
  lemma AfterCancel(r: Replayer, id: nat, es: seq<Event>, b: Book, sequence: nat, now: nat, capacity: nat)
    requires BookOk(r.book) && r.book.Contains(id) && Next(r, sequence) && sequence < U64
    ensures Rebuilds(r, [CancelEvent(r.book.Lookup(id), sequence, now)] + es, b, capacity)
            <==> Rebuilds(Counted(r, CancelOrder(r.book, id), sequence), es, b, capacity)
  {}

  /** The reissued order is matched on the book without the old one. */
  lemma RenewedForm(e: Engine, id: nat, price: int, quantity: nat, now: nat, capacity: nat)
    requires WellFilled(e.book) && e.priority < MAX_PRIORITY
    requires !ReplaceRefused(e.book, id, price, quantity) && LosesPriority(e.book, id, price, quantity)
    requires quantity > e.book.Lookup(id).quantity - e.book.Lookup(id).remaining
    ensures var o' := Reissue(e.book.Lookup(id), price, quantity, e.priority);
            var m := Match(CancelOrder(e.book, id), o', e.policy, capacity);
            var s := DoReplace(e, id, price, quantity, now, capacity);
            && s.engine.book == m.book
            && s.events == [CancelEvent(e.book.Lookup(id), e.sequence, now)]
                           + MatchEvents(o', m.fills, m.left, e.sequence + 1, now)
  {
    hide Match, MatchEvents, CancelOrder, DoReplace;
    ReplacePublishes(e, id, price, quantity, now, capacity);
  }

  lemma RenewedPoised(e: Engine, r: Replayer, id: nat, price: int, quantity: nat, published: nat, capacity: nat)
    requires Linked(e, r, capacity) && WellFilled(e.book) && e.sequence + 1 + published < U64
    requires !ReplaceRefused(e.book, id, price, quantity)
    requires quantity > e.book.Lookup(id).quantity - e.book.Lookup(id).remaining
    ensures BookOk(r.book)
    ensures Poised(Counted(r, CancelOrder(e.book, id), e.sequence),
                   Reissue(e.book.Lookup(id), price, quantity, e.priority),
                  e.sequence + 1, published)
  {
    LookupSane(e.book, id, e.priority);
    CancelLive(e.book, id, Ceiling(r));
    CancelKeeps(e.book, id);
  }

  lemma RenewedReplaysIff(e: Engine, r: Replayer, id: nat, price: int, quantity: nat, now: nat, capacity: nat)
    requires Linked(e, r, capacity) && WellFilled(e.book) && e.priority < MAX_PRIORITY
    requires !ReplaceRefused(e.book, id, price, quantity) && LosesPriority(e.book, id, price, quantity)
    requires quantity > e.book.Lookup(id).quantity - e.book.Lookup(id).remaining
    requires e.sequence + |DoReplace(e, id, price, quantity, now, capacity).events| < U64
    ensures var s := DoReplace(e, id, price, quantity, now, capacity);
            Rebuilds(r, s.events, s.engine.book, capacity) <==> ReplaceFaithful(e, id, price, quantity, capacity)
  {
    hide DoReplace, Match, MatchEvents, ReplayAll, Live, BookOk, CancelOrder, Faithful, Poised, Sound, Rebuilds,
         WellFilled;
    RenewedForm(e, id, price, quantity, now, capacity);
    var o' := Reissue(e.book.Lookup(id), price, quantity, e.priority);
    var b1 := CancelOrder(e.book, id);
    var m := Match(b1, o', e.policy, capacity);
    var es := MatchEvents(o', m.fills, m.left, e.sequence + 1, now);
    RenewedPoised(e, r, id, price, quantity, |es|, capacity);
    AfterCancel(r, id, es, m.book, e.sequence, now, capacity);
    MatchReplaysIff(Counted(r, b1, e.sequence), o', e.policy, e.sequence + 1, now, capacity);
  }

  /** Replay refuses an acceptance that repeats an old priority. */
  lemma StaleAcceptance(r: Replayer, e: Event, b: Book, capacity: nat)
    requires e.Accepted? && !PriorityOk(r, e.priority)
    ensures !Rebuilds(r, [e], b, capacity)
  {}

  /** What a priority-keeping replace publishes: a cancellation and at most one acceptance, at the old priority. */
  function KeptEvents(was: Order, price: int, quantity: nat, sequence: nat, now: nat): seq<Event>
    requires was.quantity - was.remaining <= quantity
  {
    var left := quantity - (was.quantity - was.remaining);
    [CancelEvent(was, sequence, now)] +
    (if left > 0 then [AcceptedEvent(Reissue(was, price, quantity, was.priority), left, sequence + 1, now)] else [])
  }

  lemma ReplacedInPlace(b: Book, id: nat, price: int, quantity: nat, priority: nat, policy: StpPolicy, capacity: nat)
    requires WellFilled(b) && !ReplaceRefused(b, id, price, quantity) && ReplaceInPlace(b, id, price, quantity)
    ensures var was := b.Lookup(id);
            var r := ReplaceOrder(b, id, price, quantity, priority, policy, capacity);
            r.Replaced? && r.book.Contains(id) && r.fills == [] && r.left == quantity - (was.quantity - was.remaining)
  {
    hide Match, CancelOrder;
    var r := ReplaceOrder(b, id, price, quantity, priority, policy, capacity);
    var q := b.Queue(b.SideOf(id));
    assert r.book.Queue(b.SideOf(id))[Position(q, id)].id == id;
  }

  lemma InPlaceForm(e: Engine, id: nat, price: int, quantity: nat, now: nat, capacity: nat)
    requires BookOk(e.book) && WellFilled(e.book)
    requires !ReplaceRefused(e.book, id, price, quantity) && ReplaceInPlace(e.book, id, price, quantity)
    ensures var s := DoReplace(e, id, price, quantity, now, capacity);
            s.engine.book.Contains(id) && s.events == KeptEvents(e.book.Lookup(id), price, quantity, e.sequence, now)
  {
    LookupFacts(e.book, id);
    hide DoReplace, ReplaceOrder, MatchEvents, BookOk;
    var was := e.book.Lookup(id);
    ReplacePublishes(e, id, price, quantity, now, capacity);
    ReplacedInPlace(e.book, id, price, quantity, was.priority, e.policy, capacity);
    var o' := Reissue(was, price, quantity, was.priority);
    MatchEventsNoFills(o', o'.remaining, e.sequence + 1, now);
  }

  lemma UnchangedForm(e: Engine, id: nat, now: nat, capacity: nat)
    requires BookOk(e.book) && e.book.Count() <= capacity && WellFilled(e.book)
    requires e.book.Contains(id) && e.book.Lookup(id).remaining > 0
    ensures var was := e.book.Lookup(id);
            was.remaining <= was.quantity &&
            DoReplace(e, id, was.price, was.quantity, now, capacity).events
            == KeptEvents(was, was.price, was.quantity, e.sequence, now)
  {
    var was := e.book.Lookup(id);
    LookupFacts(e.book, id);
    SameTerms(e.book, id, e.policy, capacity);
    UnchangedReplace(e.book, id, e.policy, capacity);
    hide DoReplace, ReplaceOrder, MatchEvents, BookOk, Match, CancelOrder;
    ReplacePublishes(e, id, was.price, was.quantity, now, capacity);
    assert Reissue(was, was.price, was.quantity, was.priority) == was;
    MatchEventsNoFills(was, was.remaining, e.sequence + 1, now);
  }

  lemma UnchangedReplace(b: Book, id: nat, policy: StpPolicy, capacity: nat)
    requires b.Contains(id) && b.Lookup(id).price > 0 && 0 < b.Lookup(id).remaining <= b.Lookup(id).quantity
    ensures var was := b.Lookup(id);
            var m := Match(CancelOrder(b, id), was, policy, capacity);
            ReplaceOrder(b, id, was.price, was.quantity, was.priority, policy, capacity)
            == Replaced(m.book, m.fills, m.left)
  {}

  lemma NothingRebuilds(r: Replayer, b: Book, capacity: nat)
    ensures Rebuilds(r, [], b, capacity) <==> r.book == b
  {}

  lemma MatchEventsNoFills(o: Order, left: nat, sequence: nat, now: nat)
    ensures MatchEvents(o, [], left, sequence, now)
            == if left > 0 && o.kind.Limit? then [AcceptedEvent(o, left, sequence, now)] else []
  {}

  lemma KeptEventsNeverReplay(r: Replayer, id: nat, price: int, quantity: nat, b': Book, sequence: nat, now: nat,
                              capacity: nat)
    requires BookOk(r.book) && r.book.Contains(id) && PrioritiesBelow(r.book, Ceiling(r)) && Next(r, sequence)
             && sequence < U64
    requires r.book.Lookup(id).remaining <= r.book.Lookup(id).quantity
    requires r.book.Lookup(id).quantity - r.book.Lookup(id).remaining <= quantity
    requires quantity == r.book.Lookup(id).quantity - r.book.Lookup(id).remaining ==> b'.Contains(id)
    ensures !Rebuilds(r, KeptEvents(r.book.Lookup(id), price, quantity, sequence, now), b', capacity)
  {
    hide ReplayAll, Rebuilds, Apply;
    var was := r.book.Lookup(id);
    LookupFacts(r.book, id);
    CancelKeeps(r.book, id);
    var left := quantity - (was.quantity - was.remaining);
    var r1 := Counted(r, CancelOrder(r.book, id), sequence);
    if left > 0 {
      var a := AcceptedEvent(Reissue(was, price, quantity, was.priority), left, sequence + 1, now);
      AfterCancel(r, id, [a], b', sequence, now, capacity);
      StaleAcceptance(r1, a, b', capacity);
    } else {
      AfterCancel(r, id, [], b', sequence, now, capacity);
      NothingRebuilds(r1, b', capacity);
    }
  }

  /** No replace that keeps its priority can be replayed. */
  lemma KeptNeverReplays(e: Engine, r: Replayer, id: nat, price: int, quantity: nat, now: nat, capacity: nat)
    requires Linked(e, r, capacity) && WellFilled(e.book) && quantity > 0 && e.sequence < U64
    requires !ReplaceRefused(e.book, id, price, quantity) && !LosesPriority(e.book, id, price, quantity)
    ensures var s := DoReplace(e, id, price, quantity, now, capacity);
            !Rebuilds(r, s.events, s.engine.book, capacity)
  {
    hide DoReplace, Rebuilds;
    LookupFacts(e.book, id);
    if ReplaceInPlace(e.book, id, price, quantity) { InPlaceForm(e, id, price, quantity, now, capacity); }
    else { UnchangedForm(e, id, now, capacity); }
    var s := DoReplace(e, id, price, quantity, now, capacity);
    KeptEventsNeverReplay(r, id, price, quantity, s.engine.book, e.sequence, now, capacity);
  }

  lemma QuietReplace(e: Engine, r: Replayer, id: nat, price: int, quantity: nat, now: nat, capacity: nat)
    requires Linked(e, r, capacity) && WellFilled(e.book) && e.sequence + 1 < U64
    requires || ReplaceRefused(e.book, id, price, quantity) || quantity == 0
             || (LosesPriority(e.book, id, price, quantity)
                 && (|| e.priority == MAX_PRIORITY
                     || quantity == e.book.Lookup(id).quantity - e.book.Lookup(id).remaining))
    ensures var s := DoReplace(e, id, price, quantity, now, capacity);
            Rebuilds(r, s.events, s.engine.book, capacity)
  {
    hide Match, Apply;
    if !ReplaceRefused(e.book, id, price, quantity)
       && !(LosesPriority(e.book, id, price, quantity) && e.priority == MAX_PRIORITY)
    {
      var was := e.book.Lookup(id);
      var issued := if quantity == 0 then was else Reissue(was, price, quantity, e.priority);
      MatchEventsNoFills(issued, 0, e.sequence + 1, now);
      AfterCancel(r, id, [], CancelOrder(e.book, id), e.sequence, now, capacity);
    }
  }

  /** From any state in which journal and engine agree, replaying what a command published gives the engine's
      new book if and only if the command is faithful. */
  lemma StepReplaysIff(e: Engine, r: Replayer, c: Command, capacity: nat)
    requires Linked(e, r, capacity) && WellFilled(e.book) && Admissible(e.book, c)
    requires e.sequence + |Step(e, c, capacity).events| + 1 < U64
    ensures var s := Step(e, c, capacity);
            Rebuilds(r, s.events, s.engine.book, capacity) <==> StepFaithful(e, c, capacity)
  {
    hide Match, Apply, MatchEvents, Faithful;
    match c
    case SetPolicy(_) =>
    case Cancel(id, healthy, now) =>
      if !e.state.Halted? && healthy && e.book.Contains(id) {
        var x := CancelEvent(e.book.Lookup(id), e.sequence, now);
        assert [x] + [] == [x];
        AfterCancel(r, id, [], CancelOrder(e.book, id), e.sequence, now, capacity);
      }
    case Process(order, healthy, now) =>
      if !e.state.Halted? && healthy && e.priority < MAX_PRIORITY {
        MatchReplaysIff(r, order.(priority := e.priority), e.policy, e.sequence, now, capacity);
      }
    case Replace(id, price, quantity, healthy, now) =>
      if !e.state.Halted? && healthy { ReplaceReplaysIff(e, r, id, price, quantity, now, capacity); }
  }

  lemma ReplaceReplaysIff(e: Engine, r: Replayer, id: nat, price: int, quantity: nat, now: nat, capacity: nat)
    requires Linked(e, r, capacity) && WellFilled(e.book)
    requires e.sequence + |DoReplace(e, id, price, quantity, now, capacity).events| + 1 < U64
    ensures var s := DoReplace(e, id, price, quantity, now, capacity);
            Rebuilds(r, s.events, s.engine.book, capacity) <==> ReplaceFaithful(e, id, price, quantity, capacity)
  {
    hide DoReplace, Rebuilds, Faithful;
    if ReplaceRefused(e.book, id, price, quantity) || quantity == 0 {
      QuietReplace(e, r, id, price, quantity, now, capacity);
    } else if !LosesPriority(e.book, id, price, quantity) {
      KeptNeverReplays(e, r, id, price, quantity, now, capacity);
    } else if e.priority == MAX_PRIORITY || quantity == e.book.Lookup(id).quantity - e.book.Lookup(id).remaining {
      QuietReplace(e, r, id, price, quantity, now, capacity);
    } else {
      RenewedReplaysIff(e, r, id, price, quantity, now, capacity);
    }
  }
}
