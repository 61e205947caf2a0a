/** Rebuilding a book from journaled events, as recovery does it. */
module Replay {
  import opened Types
  import opened Book

  datatype Replayer = Replayer(
    book: Book, records: nat, newOrders: nat, first: bool, lastSequence: nat, maxPriority: nat)

  /** `Threw`: the order constructor rejected the fields with an exception. */
  datatype Verdict = Done | Rejects | Threw

  /** `at` is the state after the last record that was applied. */
  datatype Replayed = Replayed(verdict: Verdict, at: Replayer)

  const FRESH: Replayer := Replayer(EMPTY, 0, 0, true, 0, 0)

  /** Sequence numbers must be contiguous; the largest one has no successor. */
  predicate SequenceOk(r: Replayer, sequence: nat) {
    r.first || (r.lastSequence != U64 - 1 && sequence == r.lastSequence + 1)
  }

  /** Priorities of new orders must increase strictly. */
  predicate PriorityOk(r: Replayer, priority: nat) { r.newOrders == 0 || priority > r.maxPriority }

  function Restored(e: Event): Order
    requires e.Accepted?
  {
    Order(e.id, e.trader, e.symbol, if e.isBuy then Buy else Sell, e.kind, e.ticks, e.quantity, e.remaining, e.priority)
  }

  function Counted(r: Replayer, b: Book, sequence: nat): Replayer {
    r.(book := b, records := r.records + 1, first := false, lastSequence := sequence)
  }

  function Apply(r: Replayer, e: Event, capacity: nat): Replayed {
    if !SequenceOk(r, e.sequence) then Replayed(Rejects, r)
    else match e
      case Accepted(_, s, id, _, trader, _, ticks, quantity, remaining, kind, priority) =>
        if quantity == 0 || remaining == 0 || remaining > quantity || !kind.Limit? || !PriorityOk(r, priority) then
          Replayed(Rejects, r)
        else if id == 0 || trader == 0 || ticks <= 0 then Replayed(Threw, r)
        else if r.book.Contains(id) || !CanRest(r.book, Restored(e), capacity) then Replayed(Rejects, r)
        else Replayed(Done, Counted(r, AddOrder(r.book, Restored(e), capacity), s)
                            .(newOrders := r.newOrders + 1, maxPriority := priority))
      case Traded(_, s, restingId, _, _, _, quantity, _, _) =>
        if CanFill(r.book, restingId, quantity) then
          Replayed(Done, Counted(r, ApplyFill(r.book, restingId, quantity), s))
        else Replayed(Rejects, r)
      case Cancelled(_, s, id, _, _, _) =>
        if r.book.Contains(id) then Replayed(Done, Counted(r, CancelOrder(r.book, id), s)) else Replayed(Rejects, r)
      case Rejected(_, _, _, _, _) => Replayed(Rejects, r)
  }

  function ReplayAll(r: Replayer, es: seq<Event>, capacity: nat): Replayed
    decreases |es|
  {
    if es == [] then Replayed(Done, r)
    else
      var a := Apply(r, es[0], capacity);
      if a.verdict.Done? then ReplayAll(a.at, es[1..], capacity) else a
  }

  /** What every applied record leaves behind. */
  lemma Applied(r: Replayer, e: Event, capacity: nat)
    requires Apply(r, e, capacity).verdict.Done?
    ensures var r' := Apply(r, e, capacity).at;
            && SequenceOk(r, e.sequence) && !r'.first && r'.lastSequence == e.sequence
            && (if e.Accepted? then
                  PriorityOk(r, e.priority) && r'.newOrders == r.newOrders + 1 && r'.maxPriority == e.priority
                else r'.newOrders == r.newOrders && r'.maxPriority == r.maxPriority)
  {}

  lemma ReplayCons(r: Replayer, e: Event, es: seq<Event>, r1: Replayer, capacity: nat)
    requires Apply(r, e, capacity) == Replayed(Done, r1)
    ensures ReplayAll(r, [e] + es, capacity) == ReplayAll(r1, es, capacity)
  {}

  /** Replaying `es` from `r` succeeds and ends in book `b`. */
  ghost predicate Rebuilds(r: Replayer, es: seq<Event>, b: Book, capacity: nat) {
    var v := ReplayAll(r, es, capacity);
    v.verdict.Done? && v.at.book == b
  }

  lemma {:induction false} ReplayConcat(r: Replayer, a: seq<Event>, b: seq<Event>, capacity: nat)
    ensures var v := ReplayAll(r, a, capacity);
            ReplayAll(r, a + b, capacity) == if v.verdict.Done? then ReplayAll(v.at, b, capacity) else v
    decreases |a|
  {
    if a == [] {
      assert a + b == b;
    } else {
      assert (a + b)[0] == a[0] && (a + b)[1..] == a[1..] + b;
      var v := Apply(r, a[0], capacity);
      if v.verdict.Done? { ReplayConcat(v.at, a[1..], b, capacity); }
    }
  }

  /** A history that replays has replayable prefixes. */
  lemma ReplayPrefix(r: Replayer, es: seq<Event>, k: nat, capacity: nat)
    requires k <= |es| && ReplayAll(r, es, capacity).verdict.Done?
    ensures ReplayAll(r, es[..k], capacity).verdict.Done?
  {
    hide ReplayAll;
    assert es == es[..k] + es[k..];
    ReplayConcat(r, es[..k], es[k..], capacity);
  }

  ghost predicate Contiguous(es: seq<Event>) {
    forall i :: 0 <= i < |es| - 1 ==> es[i + 1].sequence == es[i].sequence + 1
  }

  ghost predicate PrioritiesIncrease(es: seq<Event>) {
    forall i, j :: 0 <= i < j < |es| && es[i].Accepted? && es[j].Accepted? ==> es[i].priority < es[j].priority
  }

  lemma {:induction false} ReplayedPriorities(r: Replayer, es: seq<Event>, capacity: nat)
    requires ReplayAll(r, es, capacity).verdict.Done?
    ensures r.newOrders > 0 ==> forall j :: 0 <= j < |es| && es[j].Accepted? ==> r.maxPriority < es[j].priority
    ensures PrioritiesIncrease(es)
    decreases |es|
  {
    hide Apply;
    if es != [] {
      var a := Apply(r, es[0], capacity);
      Applied(r, es[0], capacity);
      ReplayedPriorities(a.at, es[1..], capacity);
      assert forall j :: 1 <= j < |es| ==> es[j] == es[1..][j - 1];
    }
  }

  /** Whatever replays was contiguous, with strictly increasing priorities. */
  lemma {:induction false} ReplayedIsOrdered(r: Replayer, es: seq<Event>, capacity: nat)
    requires ReplayAll(r, es, capacity).verdict.Done?
    ensures Contiguous(es) && PrioritiesIncrease(es)
    ensures es != [] && !r.first ==> es[0].sequence == r.lastSequence + 1
    decreases |es|
  {
    ReplayedPriorities(r, es, capacity);
    hide Apply;
    if es != [] {
      var a := Apply(r, es[0], capacity);
      Applied(r, es[0], capacity);
      ReplayedIsOrdered(a.at, es[1..], capacity);
      assert forall j :: 1 <= j < |es| ==> es[j] == es[1..][j - 1];
    }
  }
}

/** Replaying what a match published rebuilds the live book, exactly when the match hid nothing. */
module MatchReplay {
  import opened Types
  import opened PriorityList
  import opened SweepLaws
  import opened Thinning
  import opened Book
  import opened BookInvariant
  import opened Engine
  import opened EngineInvariant
  import opened Replay

  ghost predicate Traders32(b: Book) {
    (forall o <- b.bids :: o.trader < U32) && (forall o <- b.asks :: o.trader < U32)
  }

  /** Books that recovery can produce and the live engine can continue from. */
  ghost predicate Live(b: Book) {
    BookOk(b) && Identified(b) && Traders32(b) && Alive(b.bids) && Alive(b.asks)
  }

  predicate Next(r: Replayer, sequence: nat) { r.first || r.lastSequence + 1 == sequence }

  /** `r` after `n` more records ending just before `sequence + n`. */
  function After(r: Replayer, b: Book, n: nat, sequence: nat): Replayer {
    if n == 0 then r.(book := b)
    else r.(book := b, records := r.records + n, first := false, lastSequence := sequence + n - 1)
  }

  // ----- the fills ------------------------------------------------------------------------------

  lemma HeadFill(r: Replayer, inc: Order, quantity: nat, sequence: nat, now: nat, capacity: nat)
    requires BookOk(r.book) && r.book.Queue(inc.side.Opposite()) != [] && Next(r, sequence) && sequence < U64
    requires 0 < quantity <= r.book.Queue(inc.side.Opposite())[0].remaining
    ensures var q := r.book.Queue(inc.side.Opposite());
            Apply(r, TradeEvent(inc, Fill(q[0], quantity), sequence, now), capacity)
            == Replayed(Done, After(r, r.book.With(inc.side.Opposite(), FillAt(q, 0, quantity)), 1, sequence))
  {}

  lemma SweepHead(q: seq<Order>, inc: Order, need: nat)
    requires q != [] && Crosses(inc, q[0].price) && 0 < q[0].remaining <= need
    ensures var t := Sweep(q[1..], inc, need - q[0].remaining);
            Sweep(q, inc, need) == Outcome([Fill(q[0], q[0].remaining)] + t.fills, t.rest, t.left)
  {}

  lemma EventsCons(o: Order, f: Fill, fs: seq<Fill>, sequence: nat, now: nat)
    ensures TradeEvents(o, [f] + fs, sequence, now)
            == [TradeEvent(o, f, sequence, now)] + TradeEvents(o, fs, sequence + 1, now)
  {}

  lemma AfterAfter(r: Replayer, b1: Book, b2: Book, n: nat, sequence: nat)
    ensures After(After(r, b1, 1, sequence), b2, n, sequence + 1) == After(r, b2, n + 1, sequence)
  {}

  /** The trade events of sweeping `q`, replayed as fills by id, reproduce the swept list. */
  ghost predicate SweepReplayed(r: Replayer, inc: Order, q: seq<Order>, need: nat, sequence: nat, now: nat,
                                capacity: nat) {
    var s := Sweep(q, inc, need);
    ReplayAll(r, TradeEvents(inc, s.fills, sequence, now), capacity)
    == Replayed(Done, After(r, r.book.With(inc.side.Opposite(), s.rest), |s.fills|, sequence))
  }

  lemma PartialHead(r: Replayer, inc: Order, q: seq<Order>, need: nat, sequence: nat, now: nat, capacity: nat)
    requires BookOk(r.book) && q == r.book.Queue(inc.side.Opposite()) && Next(r, sequence) && sequence < U64
    requires q != [] && Crosses(inc, q[0].price) && 0 < need < q[0].remaining
    ensures SweepReplayed(r, inc, q, need, sequence, now, capacity)
  {
    var opp := inc.side.Opposite();
    HeadFill(r, inc, need, sequence, now, capacity);
    EventsCons(inc, Fill(q[0], need), [], sequence, now);
    ReplayCons(r, TradeEvent(inc, Fill(q[0], need), sequence, now), [],
               After(r, r.book.With(opp, FillAt(q, 0, need)), 1, sequence), capacity);
    assert FillAt(q, 0, need) == Sweep(q, inc, need).rest;
  }

  lemma WholeFill(q: seq<Order>)
    requires q != []
    ensures FillAt(q, 0, q[0].remaining) == q[1..]
  {}

  lemma WholeHead(r: Replayer, r1: Replayer, inc: Order, q: seq<Order>, need: nat, sequence: nat, now: nat,
                  capacity: nat)
    requires BookOk(r.book) && q == r.book.Queue(inc.side.Opposite()) && Next(r, sequence) && sequence < U64
    requires q != [] && Crosses(inc, q[0].price) && 0 < q[0].remaining <= need
    requires r1 == After(r, r.book.With(inc.side.Opposite(), q[1..]), 1, sequence)
    requires SweepReplayed(r1, inc, q[1..], need - q[0].remaining, sequence + 1, now, capacity)
    ensures SweepReplayed(r, inc, q, need, sequence, now, capacity)
  {
    hide Apply, BookOk, Sweep, ReplayAll, TradeEvents, FillAt;
    var opp := inc.side.Opposite();
    var n := q[0].remaining;
    var t := Sweep(q[1..], inc, need - n);
    SweepHead(q, inc, need);
    HeadFill(r, inc, n, sequence, now, capacity);
    WholeFill(q);
    EventsCons(inc, Fill(q[0], n), t.fills, sequence, now);
    ReplayCons(r, TradeEvent(inc, Fill(q[0], n), sequence, now), TradeEvents(inc, t.fills, sequence + 1, now), r1,
               capacity);
    AfterAfter(r, r1.book, r.book.With(opp, t.rest), |t.fills|, sequence);
  }

  lemma {:induction false} SweepReplays(r: Replayer, inc: Order, q: seq<Order>, need: nat, sequence: nat, now: nat,
                                        capacity: nat)
    requires BookOk(r.book) && q == r.book.Queue(inc.side.Opposite()) && Alive(q) && Next(r, sequence)
    requires sequence + |Sweep(q, inc, need).fills| < U64
    ensures SweepReplayed(r, inc, q, need, sequence, now, capacity)
    decreases |q|
  {
    var opp := inc.side.Opposite();
    if need == 0 || q == [] || !Crosses(inc, q[0].price) {
      assert r.book.With(opp, q) == r.book;
    } else if need < q[0].remaining {
      PartialHead(r, inc, q, need, sequence, now, capacity);
    } else {
      var r1 := After(r, r.book.With(opp, q[1..]), 1, sequence);
      assert BookOk(r1.book) by { Drop(q); ThinKeeps(r.book, opp, q[1..]); }
      SweepHead(q, inc, need);
      SweepReplays(r1, inc, q[1..], need - q[0].remaining, sequence + 1, now, capacity);
      WholeHead(r, r1, inc, q, need, sequence, now, capacity);
    }
  }

  // ----- the whole match --------------------------------------------------------------------------

  /** Some of the incoming order is left to rest. */
  predicate Rests(b: Book, inc: Order) {
    inc.kind.Limit? && Depth(b.Queue(inc.side.Opposite()), inc) < inc.remaining
  }

  /** What the loop leaves of the book before the incoming order rests. */
  function SweptBook(b: Book, inc: Order): Book {
    b.With(inc.side.Opposite(), Sweep(b.Queue(inc.side.Opposite()), inc, inc.remaining).rest)
  }

  /** The published events tell the whole story: no self-trade cancellation took effect unseen, and an order
      that rests has a 32-bit trader id and finds a free slot. */
  predicate Faithful(b: Book, inc: Order, policy: StpPolicy, capacity: nat) {
    if StpFires(b, inc, policy) then policy.CancelNewest? && !inc.kind.Limit?
    else Rests(b, inc) ==> inc.trader < U32 && SweptBook(b, inc).Count() < capacity
  }

  function AfterMatch(r: Replayer, inc: Order, m: Matched, swept: Book, sequence: nat): Replayer {
    var r1 := After(r, swept, |m.fills|, sequence);
    if m.left > 0 && inc.kind.Limit? then
      Counted(r1, m.book, sequence + |m.fills|).(newOrders := r.newOrders + 1, maxPriority := inc.priority)
    else r1
  }

  /** A replay point at which the live engine may match `inc`. */
  ghost predicate Poised(r: Replayer, inc: Order, sequence: nat, published: nat) {
    && Live(r.book) && Submittable(inc) && !r.book.Contains(inc.id) && PriorityOk(r, inc.priority)
    && Next(r, sequence) && sequence + published < U64
  }

  lemma AcceptReplays(r: Replayer, inc: Order, left: nat, sequence: nat, now: nat, capacity: nat)
    requires !r.book.Contains(inc.id) && PriorityOk(r, inc.priority) && Next(r, sequence) && sequence < U64
    requires inc.kind.Limit? && Submittable(inc) && 0 < left <= inc.quantity && inc.trader < U32
    ensures var o := inc.(remaining := left);
            var a := Apply(r, AcceptedEvent(inc, left, sequence, now), capacity);
            if CanRest(r.book, o, capacity) then
              a == Replayed(Done, Counted(r, AddOrder(r.book, o, capacity), sequence)
                                  .(newOrders := r.newOrders + 1, maxPriority := inc.priority))
            else a.verdict.Rejects?
  {}

  lemma SweptKeepsOut(b: Book, inc: Order)
    requires BookOk(b) && !b.Contains(inc.id)
    ensures BookOk(SweptBook(b, inc)) && !SweptBook(b, inc).Contains(inc.id)
  {
    var opp := inc.side.Opposite();
    Swept(b.Queue(opp), inc, inc.remaining);
    ThinKeeps(b, opp, Sweep(b.Queue(opp), inc, inc.remaining).rest);
  }

  lemma RestReplays(r: Replayer, r1: Replayer, ts: seq<Event>, inc: Order, left: nat, sequence: nat, now: nat,
                    capacity: nat)
    requires ReplayAll(r, ts, capacity) == Replayed(Done, r1)
    requires !r1.book.Contains(inc.id) && PriorityOk(r1, inc.priority) && Next(r1, sequence) && sequence < U64
    requires inc.kind.Limit? && Submittable(inc) && 0 < left <= inc.quantity && inc.trader < U32
    requires r1.book.Count() < capacity
    ensures ReplayAll(r, ts + [AcceptedEvent(inc, left, sequence, now)], capacity)
            == Replayed(Done, Counted(r1, AddOrder(r1.book, inc.(remaining := left), capacity), sequence)
                              .(newOrders := r1.newOrders + 1, maxPriority := inc.priority))
  {
    var e := AcceptedEvent(inc, left, sequence, now);
    AcceptReplays(r1, inc, left, sequence, now, capacity);
    ReplayConcat(r, ts, [e], capacity);
    ReplayCons(r1, e, [], Apply(r1, e, capacity).at, capacity);
    assert [e] + [] == [e];
  }

  lemma MatchEventsForm(o: Order, fs: seq<Fill>, left: nat, sequence: nat, now: nat)
    ensures var ts := TradeEvents(o, fs, sequence, now);
            MatchEvents(o, fs, left, sequence, now) ==
            if left > 0 && o.kind.Limit? then ts + [AcceptedEvent(o, left, sequence + |fs|, now)] else ts
  {}

  lemma FillsReplay(r: Replayer, inc: Order, sequence: nat, now: nat, capacity: nat)
    requires BookOk(r.book) && Alive(r.book.bids) && Alive(r.book.asks) && Next(r, sequence)
    requires sequence + |TradeAndRest(r.book, inc, capacity).fills| < U64
    ensures var fs := TradeAndRest(r.book, inc, capacity).fills;
            ReplayAll(r, TradeEvents(inc, fs, sequence, now), capacity)
            == Replayed(Done, After(r, SweptBook(r.book, inc), |fs|, sequence))
  {
    SweepReplays(r, inc, r.book.Queue(inc.side.Opposite()), inc.remaining, sequence, now, capacity);
  }

  lemma LeftRests(b: Book, inc: Order, capacity: nat)
    ensures var m := TradeAndRest(b, inc, capacity);
            && m.left <= inc.remaining && (inc.kind.Limit? ==> (m.left > 0 <==> Rests(b, inc)))
            && m.book == (if m.left > 0 && inc.kind.Limit?
                          then AddOrder(SweptBook(b, inc), inc.(remaining := m.left), capacity)
                          else SweptBook(b, inc))
  {
    var q := b.Queue(inc.side.Opposite());
    LeftIsShortfall(q, inc, inc.remaining);
    SweepConserves(q, inc, inc.remaining);
  }

  lemma TradeAndRestReplays(r: Replayer, inc: Order, m: Matched, sequence: nat, now: nat, capacity: nat)
    requires m == TradeAndRest(r.book, inc, capacity)
    requires Poised(r, inc, sequence, |MatchEvents(inc, m.fills, m.left, sequence, now)|)
    requires Rests(r.book, inc) ==> inc.trader < U32 && SweptBook(r.book, inc).Count() < capacity
    ensures ReplayAll(r, MatchEvents(inc, m.fills, m.left, sequence, now), capacity)
            == Replayed(Done, AfterMatch(r, inc, m, SweptBook(r.book, inc), sequence))
  {
    hide Apply, TradeAndRest, ReplayAll, SweptBook, Rests, TradeEvents, MatchEvents, AddOrder, BookOk;
    MatchEventsForm(inc, m.fills, m.left, sequence, now);
    FillsReplay(r, inc, sequence, now, capacity);
    LeftRests(r.book, inc, capacity);
    SweptKeepsOut(r.book, inc);
    if m.left > 0 && inc.kind.Limit? {
      RestReplays(r, After(r, SweptBook(r.book, inc), |m.fills|, sequence), TradeEvents(inc, m.fills, sequence, now),
                  inc, m.left, sequence + |m.fills|, now, capacity);
    }
  }

  // ----- the converse -----------------------------------------------------------------------------

  lemma AddKeepsHas(b: Book, o: Order, capacity: nat, id: nat)
    requires b.Contains(id)
    ensures AddOrder(b, o, capacity).Contains(id)
  {
    InsertHas(o.side, b.Queue(o.side), o, id);
  }

  lemma EditKeepsHas(q: seq<Order>, k: nat, o: Order, id: nat)
    requires k < |q| && q[k].id != id && o.id == q[k].id && Has(q, id)
    ensures Has(RemoveAt(q, k), id) && Has(q[k := o], id)
  {
    var i :| 0 <= i < |q| && q[i].id == id;
    assert RemoveAt(q, k)[if i < k then i else i - 1] == q[i];
    assert q[k := o][i] == q[i];
  }

  /** The event can take order `id` out of the book. */
  predicate Touches(e: Event, id: nat) {
    (e.Traded? && e.restingId == id) || (e.Cancelled? && e.id == id)
  }

  lemma ApplyKeepsHas(r: Replayer, e: Event, capacity: nat, id: nat)
    requires Apply(r, e, capacity).verdict.Done? && r.book.Contains(id) && !Touches(e, id)
    ensures Apply(r, e, capacity).at.book.Contains(id)
  {
    match e
    case Accepted(_, _, _, _, _, _, _, _, _, _, _) => AddKeepsHas(r.book, Restored(e), capacity, id);
    case Traded(_, _, x, _, _, _, n, _, _) =>
      var q := r.book.Queue(r.book.SideOf(x));
      var k := Position(q, x);
      if Has(q, id) { EditKeepsHas(q, k, q[k].(remaining := q[k].remaining - n), id); }
    case Cancelled(_, _, x, _, _, _) =>
      var q := r.book.Queue(r.book.SideOf(x));
      if Has(q, id) { EditKeepsHas(q, Position(q, x), q[Position(q, x)], id); }
    case Rejected(_, _, _, _, _) =>
  }

  lemma {:induction false} ReplayKeepsHas(r: Replayer, es: seq<Event>, capacity: nat, id: nat)
    requires ReplayAll(r, es, capacity).verdict.Done? && r.book.Contains(id) && forall e <- es :: !Touches(e, id)
    ensures ReplayAll(r, es, capacity).at.book.Contains(id)
    decreases |es|
  {
    if es != [] {
      ApplyKeepsHas(r, es[0], capacity, id);
      ReplayKeepsHas(Apply(r, es[0], capacity).at, es[1..], capacity, id);
    }
  }

  lemma {:induction false} TradeEventsTouch(o: Order, fs: seq<Fill>, sequence: nat, now: nat, id: nat)
    requires forall f <- fs :: f.resting.id != id
    ensures forall e <- TradeEvents(o, fs, sequence, now) :: !Touches(e, id)
  {
    if fs != [] { TradeEventsTouch(o, fs[1..], sequence + 1, now, id); }
  }

  lemma MatchEventsTouch(o: Order, fs: seq<Fill>, left: nat, sequence: nat, now: nat, id: nat)
    requires forall f <- fs :: f.resting.id != id
    ensures forall e <- MatchEvents(o, fs, left, sequence, now) :: !Touches(e, id)
  {
    TradeEventsTouch(o, fs, sequence, now, id);
  }

  /** A replayed acceptance puts the order in the book. */
  lemma AcceptedIsThere(r: Replayer, es: seq<Event>, e: Event, capacity: nat)
    requires e.Accepted? && ReplayAll(r, es + [e], capacity).verdict.Done?
    ensures ReplayAll(r, es, capacity).verdict.Done?
    ensures var r1 := ReplayAll(r, es, capacity).at;
            && Apply(r1, e, capacity).verdict.Done?
            && ReplayAll(r, es + [e], capacity).at.book == AddOrder(r1.book, Restored(e), capacity)
            && CanRest(r1.book, Restored(e), capacity) && AddOrder(r1.book, Restored(e), capacity).Contains(e.id)
  {
    ReplayConcat(r, es, [e], capacity);
    var r1 := ReplayAll(r, es, capacity).at;
    assert [e][1..] == [];
    assert ReplayAll(r1, [e], capacity).verdict.Done?;
    assert Apply(r1, e, capacity).verdict.Done?;
    InsertHas(Restored(e).side, r1.book.Queue(Restored(e).side), Restored(e), e.id);
  }

  lemma OldestVictim(q: seq<Order>, inc: Order, y: Order)
    requires DistinctIds(q) && inc.remaining > 0 && WouldSelfTrade(q, inc, inc.remaining) && y in DropFirstOwn(q, inc)
    ensures FirstOwn(q, inc) < |q| && y.id != q[FirstOwn(q, inc)].id
  {
    var k, q' := FirstOwn(q, inc), DropFirstOwn(q, inc);
    DropFirstOwnHits(q, inc, inc.remaining);
    var i :| 0 <= i < |q'| && q'[i] == y;
    assert y == q[if i < k then i else i + 1];
  }

  lemma BothVictim(q: seq<Order>, inc: Order, y: Order)
    requires DistinctIds(q) && inc.remaining > 0 && WouldSelfTrade(q, inc, inc.remaining) && y in DropAllOwn(q, inc)
    requires Sorted(inc.side.Opposite(), q)
    ensures FirstOwn(q, inc) < |q| && y.id != q[FirstOwn(q, inc)].id
  {
    DropFirstOwnHits(q, inc, inc.remaining);
    DropAllOwnExact(q, inc, y);
    var i :| 0 <= i < |q| && q[i] == y;
    assert i != FirstOwn(q, inc);
  }

  /** The own order that STP cancels is resting before and gone after, and no trade names it. */
  lemma StpVictim(b: Book, inc: Order, policy: StpPolicy, capacity: nat) returns (x: Order)
    requires BookOk(b) && Submittable(inc) && !b.Contains(inc.id)
    requires StpFires(b, inc, policy) && (policy.CancelOldest? || policy.CancelBoth?)
    ensures b.Contains(x.id) && !Match(b, inc, policy, capacity).book.Contains(x.id)
    ensures forall f <- Match(b, inc, policy, capacity).fills :: f.resting.id != x.id
  {
    var opp := inc.side.Opposite();
    var q := b.Queue(opp);
    assert FirstOwn(q, inc) < |q| by { DropFirstOwnHits(q, inc, inc.remaining); }
    x := q[FirstOwn(q, inc)];
    assert Has(q, x.id);
    var q' := if policy.CancelOldest? then DropFirstOwn(q, inc) else DropAllOwn(q, inc);
    forall y | y in q' ensures y.id != x.id {
      if policy.CancelOldest? { OldestVictim(q, inc, y); } else { BothVictim(q, inc, y); }
    }
    var b1 := b.With(opp, q');
    assert !b1.Contains(x.id);
    if policy.CancelOldest? {
      assert BookOk(b1) && !b1.Contains(inc.id) by { DroppedFirstOwn(q, inc); ThinKeeps(b, opp, q'); }
      TradeAndRestKeeps(b1, inc, capacity);
      FillBounds(q', inc, inc.remaining);
    }
  }

  lemma SeenCancellation(r: Replayer, inc: Order, policy: StpPolicy, sequence: nat, now: nat, capacity: nat)
    requires BookOk(r.book) && Submittable(inc) && !r.book.Contains(inc.id)
    requires StpFires(r.book, inc, policy) && !(policy.CancelNewest? && !inc.kind.Limit?)
    ensures var m := Match(r.book, inc, policy, capacity);
            !Rebuilds(r, MatchEvents(inc, m.fills, m.left, sequence, now), m.book, capacity)
  {
    var m := Match(r.book, inc, policy, capacity);
    var es := MatchEvents(inc, m.fills, m.left, sequence, now);
    if ReplayAll(r, es, capacity).verdict.Done? {
      if policy.CancelNewest? {
        AcceptedIsThere(r, [], AcceptedEvent(inc, m.left, sequence, now), capacity);
      } else {
        var x := StpVictim(r.book, inc, policy, capacity);
        MatchEventsTouch(inc, m.fills, m.left, sequence, now, x.id);
        ReplayKeepsHas(r, es, capacity, x.id);
      }
    }
  }

  lemma HiddenAccept(r: Replayer, r1: Replayer, ts: seq<Event>, inc: Order, left: nat, sequence: nat, now: nat,
                     capacity: nat)
    requires ReplayAll(r, ts, capacity) == Replayed(Done, r1) && !r1.book.Contains(inc.id)
    requires !(inc.trader < U32 && r1.book.Count() < capacity)
    ensures !Rebuilds(r, ts + [AcceptedEvent(inc, left, sequence, now)],
                      AddOrder(r1.book, inc.(remaining := left), capacity), capacity)
  {
    var e := AcceptedEvent(inc, left, sequence, now);
    if ReplayAll(r, ts + [e], capacity).verdict.Done? {
      AcceptedIsThere(r, ts, e, capacity);
      var o, o' := inc.(remaining := left), Restored(e);
      assert o'.trader < U32 && o' != o;
      InsertMembers(o.side, r1.book.Queue(o.side), o, o');
      InsertMembers(o.side, r1.book.Queue(o.side), o', o');
      assert o' in r1.book.Queue(o.side) ==> Has(r1.book.Queue(o.side), o'.id);
    }
  }

  lemma HiddenRest(r: Replayer, inc: Order, m: Matched, sequence: nat, now: nat, capacity: nat)
    requires m == TradeAndRest(r.book, inc, capacity)
    requires Poised(r, inc, sequence, |MatchEvents(inc, m.fills, m.left, sequence, now)|)
    requires Rests(r.book, inc) && !(inc.trader < U32 && SweptBook(r.book, inc).Count() < capacity)
    ensures !Rebuilds(r, MatchEvents(inc, m.fills, m.left, sequence, now), m.book, capacity)
  {
    hide Apply;
    MatchEventsForm(inc, m.fills, m.left, sequence, now);
    FillsReplay(r, inc, sequence, now, capacity);
    LeftRests(r.book, inc, capacity);
    SweptKeepsOut(r.book, inc);
    HiddenAccept(r, After(r, SweptBook(r.book, inc), |m.fills|, sequence), TradeEvents(inc, m.fills, sequence, now),
                 inc, m.left, sequence + |m.fills|, now, capacity);
  }

  /** Replaying the events of a match rebuilds the live book if and only if the match was faithful. */
  lemma MatchReplaysIff(r: Replayer, inc: Order, policy: StpPolicy, sequence: nat, now: nat, capacity: nat)
    requires var m := Match(r.book, inc, policy, capacity);
             Poised(r, inc, sequence, |MatchEvents(inc, m.fills, m.left, sequence, now)|)
    ensures var m := Match(r.book, inc, policy, capacity);
            Rebuilds(r, MatchEvents(inc, m.fills, m.left, sequence, now), m.book, capacity)
            <==> Faithful(r.book, inc, policy, capacity)
  {
    if StpFires(r.book, inc, policy) {
      if !(policy.CancelNewest? && !inc.kind.Limit?) {
        SeenCancellation(r, inc, policy, sequence, now, capacity);
      }
    } else if !Killed(r.book, inc) {
      var m := TradeAndRest(r.book, inc, capacity);
      if Faithful(r.book, inc, policy, capacity) { TradeAndRestReplays(r, inc, m, sequence, now, capacity); }
      else { HiddenRest(r, inc, m, sequence, now, capacity); }
    }
  }
}
