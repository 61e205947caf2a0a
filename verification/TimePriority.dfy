/** Time priority over whole runs, through recovery and beyond. */
module TimePriority {
  import opened Types
  import opened PriorityList
  import opened Thinning
  import opened Book
  import opened Engine
  import opened EngineInvariant
  import opened Replay
  import opened EngineReplay
  import opened CrashConsistency

  // ----- live runs ----------------------------------------------------------------------------------------

  /** Every command is admissible where it is issued, and none is a replace that shuffles its price level.
      (`WellFilled` only makes `Step` defined; `StepSane` shows that it always holds.) */
  ghost predicate Orderly(e: Engine, cs: seq<Command>, capacity: nat)
    decreases |cs|
  {
    cs == [] ||
    (&& WellFilled(e.book) && Admissible(e.book, cs[0]) && !Shuffles(e, cs[0])
     && Orderly(Step(e, cs[0], capacity).engine, cs[1..], capacity))
  }

  ghost function After(e: Engine, cs: seq<Command>, capacity: nat): Engine
    requires Orderly(e, cs, capacity)
    decreases |cs|
  {
    if cs == [] then e else After(Step(e, cs[0], capacity).engine, cs[1..], capacity)
  }

  /** Under every policy, whatever is journaled or not: the book stays well formed, each level stays in strict
      priority order from front to back, and every resting priority is below the counter. */
  lemma {:induction false} RunFifo(e: Engine, cs: seq<Command>, capacity: nat)
    requires Sane(e, capacity) && FifoBook(e.book) && Orderly(e, cs, capacity)
    ensures var e' := After(e, cs, capacity); Sane(e', capacity) && FifoBook(e'.book)
    decreases |cs|
  {
    hide Step, Sane, FifoBook;
    if cs != [] {
      StepSane(e, cs[0], capacity);
      FifoIff(e, cs[0], capacity);
      RunFifo(Step(e, cs[0], capacity).engine, cs[1..], capacity);
    }
  }

  // ----- replay ---------------------------------------------------------------------------------------------

  /** Both sides in price order, each price in priority order, and every priority below `n`. */
  ghost predicate BookInOrder(b: Book, n: nat) {
    Sorted(Buy, b.bids) && Sorted(Sell, b.asks) && FifoBook(b) && PrioritiesBelow(b, n)
  }

  ghost predicate InOrder(r: Replayer) { BookInOrder(r.book, Ceiling(r)) }

  lemma ThinInOrder(b: Book, side: Side, q: seq<Order>, n: nat)
    requires BookInOrder(b, n) && Thinned(q, b.Queue(side))
    ensures BookInOrder(b.With(side, q), n)
  {
    ThinnedSorted(side, q, b.Queue(side));
    ThinnedFifo(q, b.Queue(side));
    forall x | x in q ensures x.priority < n { var o := Origin(q, b.Queue(side), x); }
  }

  lemma AcceptInOrder(b: Book, o: Order, n: nat, capacity: nat)
    requires BookInOrder(b, n) && n <= o.priority
    ensures BookInOrder(AddOrder(b, o, capacity), o.priority + 1)
  {
    var q := b.Queue(o.side);
    InsertSorted(o.side, q, o);
    InsertFifo(o.side, q, o);
    forall x | x in Insert(o.side, q, o) ensures x in q || x == o { InsertMembers(o.side, q, o, x); }
    hide Sorted, Fifo, Insert;
  }

  lemma ApplyInOrder(r: Replayer, e: Event, capacity: nat)
    requires InOrder(r) && Apply(r, e, capacity).verdict.Done?
    ensures InOrder(Apply(r, e, capacity).at)
  {
    match e
    case Accepted(_, _, _, _, _, _, _, _, _, _, _) => AcceptInOrder(r.book, Restored(e), Ceiling(r), capacity);
    case Traded(_, _, id, _, _, _, n, _, _) =>
      var q := r.book.Queue(r.book.SideOf(id));
      FilledAt(q, Position(q, id), n);
      ThinInOrder(r.book, r.book.SideOf(id), FillAt(q, Position(q, id), n), Ceiling(r));
    case Cancelled(_, _, id, _, _, _) =>
      var q := r.book.Queue(r.book.SideOf(id));
      RemovedAt(q, Position(q, id));
      ThinInOrder(r.book, r.book.SideOf(id), Remove(q, id), Ceiling(r));
    case Rejected(_, _, _, _, _) =>
  }

  /** Whatever journal replays, no matter who wrote it, rebuilds a book in time priority. */
  lemma {:induction false} ReplayInOrder(r: Replayer, es: seq<Event>, capacity: nat)
    requires InOrder(r) && ReplayAll(r, es, capacity).verdict.Done?
    ensures InOrder(ReplayAll(r, es, capacity).at)
    decreases |es|
  {
    hide Apply, InOrder;
    if es != [] {
      ApplyInOrder(r, es[0], capacity);
      ReplayInOrder(Apply(r, es[0], capacity).at, es[1..], capacity);
    }
  }

  /** After any number of crashes and restarts, an engine resumed from the journal trades on in time priority. */
  lemma FifoThroughRecovery(lives: seq<Life>, cs: seq<Command>, capacity: nat)
    requires Livable(NEW_ENGINE, FRESH, lives, capacity)
    requires var r := ReplayAll(FRESH, Journaled(NEW_ENGINE, FRESH, lives, capacity), capacity).at;
             Orderly(Resume(r), cs, capacity)
    ensures var r := ReplayAll(FRESH, Journaled(NEW_ENGINE, FRESH, lives, capacity), capacity).at;
            var e := After(Resume(r), cs, capacity);
            Sane(e, capacity) && FifoBook(e.book)
  {
    hide Livable, Journaled, ReplayAll, Orderly, After, Sane;
    var es := Journaled(NEW_ENGINE, FRESH, lives, capacity);
    var r := ReplayAll(FRESH, es, capacity).at;
    NewLinked(capacity);
    LivesReplay(NEW_ENGINE, FRESH, lives, capacity);
    ReplayInOrder(FRESH, es, capacity);
    ResumeLinked(r, capacity);
    LinkedSane(Resume(r), r, capacity);
    RunFifo(Resume(r), cs, capacity);
  }
}
