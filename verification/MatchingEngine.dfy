/** The engine object: it drives the book, hands out priorities and sequence numbers, and publishes events. */
module MatchingEngine {
  import opened Types
  import opened PriorityList
  import opened Book
  import Flat = Book
  import opened Engine
  import opened OrderBook
  import opened LevelStore

  lemma PrefixTail<T>(s: seq<T>, n: nat)
    requires 0 < n <= |s|
    ensures s[..n][1..] == s[1..][..n - 1]
  {}

  lemma {:induction false} TradeEventsSnoc(o: Order, fs: seq<Fill>, n: nat, sequence: nat, now: nat)
    requires n < |fs|
    ensures TradeEvents(o, fs[..n + 1], sequence, now)
            == TradeEvents(o, fs[..n], sequence, now) + [TradeEvent(o, fs[n], sequence + n, now)]
  {
    var a := fs[..n + 1];
    if n == 0 {
      assert a[1..] == [] && fs[..0] == [];
    } else {
      PrefixTail(fs, n);
      PrefixTail(fs, n + 1);
      TradeEventsSnoc(o, fs[1..], n - 1, sequence + 1, now);
    }
  }

  lemma SameTrades(a: Order, b: Order, fs: seq<Fill>, id: nat)
    requires a.id == b.id && a.trader == b.trader && a.side == b.side
    ensures TradesOf(a, fs, id) == TradesOf(b, fs, id)
  {}

  /** What a replace answers its caller. */
  datatype Reply = Reply(ok: bool, trades: seq<Trade>, left: nat)

  const REFUSED: Reply := Reply(false, [], 0)

  function ReplyOf(was: Order, r: Replaced, tradeId: nat): Reply {
    if r.Refused? then REFUSED else Reply(true, TradesOf(was, r.fills, tradeId), r.left)
  }

  function ReplaceReply(e: Engine, id: nat, price: int, quantity: nat, capacity: nat): Reply
    requires e.book.Contains(id) ==> e.book.Lookup(id).remaining <= e.book.Lookup(id).quantity
  {
    var renewed := LosesPriority(e.book, id, price, quantity);
    if !e.book.Contains(id) || (quantity > 0 && price <= 0) || (renewed && e.priority == MAX_PRIORITY) then REFUSED
    else
      var was := e.book.Lookup(id);
      ReplyOf(was, Flat.ReplaceOrder(e.book, id, price, quantity, if renewed then e.priority else was.priority,
                                     e.policy, capacity), e.tradeId)
  }

  class MatchingEngine {
    const book: OrderBook
    var priority: nat
    var sequence: nat
    var state: State
    var published: seq<Event>

    ghost function Repr(): set<object> { {this} + book.Repr() }

    ghost predicate Valid()
      reads Repr()
    {
      this !in book.Repr() && book.Valid()
    }

    /** The engine state this object stands for. */
    ghost function Abs(): Engine
      reads Repr()
      requires Valid()
    {
      Engine(book.View(), priority, sequence, book.nextTradeId, book.policy, state)
    }

    constructor (capacity: nat)
      ensures Valid() && fresh(Repr()) && Abs() == Engine(EMPTY, 0, 0, 1, NoStp, Ready) && published == []
      ensures book.Capacity() == capacity
    {
      book := new OrderBook(capacity);
      priority, sequence := 0, 0;
      state := Ready;
      published := [];
    }

    // ----- state and counters -------------------------------------------------------------------------

    method BeginRecovery()
      modifies this
      ensures state == if old(state).Ready? then Recovering else old(state)
      ensures priority == old(priority) && sequence == old(sequence) && published == old(published)
    {
      if state.Ready? {
        state := Recovering;
      }
    }

    method MarkReady() returns (ok: bool)
      modifies this
      ensures ok <==> old(state).Recovering?
      ensures state == if ok then Ready else old(state)
      ensures priority == old(priority) && sequence == old(sequence) && published == old(published)
    {
      ok := state.Recovering?;
      if ok {
        state := Ready;
      }
    }

    method Halt()
      modifies this
      ensures state == Halted && priority == old(priority) && sequence == old(sequence) && published == old(published)
    {
      state := Halted;
    }

    /** A weak exchange on the counter; `spurious` failures leave it as it is. */
    method ExchangePriority(expected: nat, desired: nat, spurious: bool) returns (ok: bool, seen: nat)
      modifies this
      ensures ok <==> !spurious && old(priority) == expected
      ensures seen == old(priority) && priority == if ok then desired else old(priority)
      ensures sequence == old(sequence) && state == old(state) && published == old(published)
    {
      seen := priority;
      ok := !spurious && seen == expected;
      if ok {
        priority := desired;
      }
    }

    /** Every priority below the maximum is handed out once; the maximum never. The exchange may fail spuriously any
        number of times. */
    method TryNextPriority() returns (p: Option<nat>)
      modifies this
      ensures p == if old(priority) == MAX_PRIORITY then None else Some(old(priority))
      ensures priority == old(priority) + (if p.Some? then 1 else 0)
      ensures sequence == old(sequence) && state == old(state) && published == old(published)
    {
      var failures: nat := *;
      var current := priority;
      while true
        invariant current == priority == old(priority)
        invariant sequence == old(sequence) && state == old(state) && published == old(published)
        decreases failures
      {
        if current == MAX_PRIORITY {
          return None;
        }
        var next := current + 1;
        var ok, seen := ExchangePriority(current, next, failures > 0);
        if ok {
          return Some(current);
        }
        current := seen;
        failures := failures - 1;
      }
    }

    /** The counter never moves backwards. */
    method SeedPriority(next: nat) returns (ok: bool)
      modifies this
      ensures ok <==> old(priority) <= next
      ensures priority == if ok then next else old(priority)
      ensures sequence == old(sequence) && state == old(state) && published == old(published)
    {
      var failures: nat := *;
      var current := priority;
      while true
        invariant current == priority == old(priority)
        invariant sequence == old(sequence) && state == old(state) && published == old(published)
        decreases failures
      {
        if next < current {
          return false;
        }
        if next == current {
          return true;
        }
        var seen;
        ok, seen := ExchangePriority(current, next, failures > 0);
        if ok {
          return true;
        }
        current := seen;
        failures := failures - 1;
      }
    }

    method Publish(e: Event)
      modifies this
      ensures published == old(published) + [e] && sequence == old(sequence) + 1
      ensures priority == old(priority) && state == old(state)
    {
      published := published + [e];
      sequence := sequence + 1;
    }

    /** One event per trade, naming the resting side of each. */
    method PublishTrades(o: Order, trades: seq<Trade>, now: nat, ghost fs: seq<Fill>, ghost id: nat)
      requires trades == TradesOf(o, fs, id)
      modifies this
      ensures published == old(published) + TradeEvents(o, fs, old(sequence), now) && sequence == old(sequence) + |fs|
      ensures priority == old(priority) && state == old(state)
    {
      ghost var s0, p0 := sequence, published;
      assert fs[..0] == [];
      for i := 0 to |trades|
        invariant published == p0 + TradeEvents(o, fs[..i], s0, now) && sequence == s0 + i
        invariant priority == old(priority) && state == old(state)
      {
        var t := trades[i];
        TradeEventsSnoc(o, fs, i, s0, now);
        var restingId := if o.side.Buy? then t.sellId else t.buyId;
        var aggressorId := if o.side.Buy? then t.buyId else t.sellId;
        var trader := (if o.side.Buy? then t.buyTrader else t.sellTrader) % U32;
        Publish(Traded(now, sequence, restingId, aggressorId, o.symbol, trader, t.quantity, t.price, o.side.Buy?));
      }
      assert fs[..|fs|] == fs;
    }

    method PublishMatch(o: Order, trades: seq<Trade>, left: nat, now: nat, ghost fs: seq<Fill>, ghost id: nat)
      requires trades == TradesOf(o, fs, id)
      modifies this
      ensures published == old(published) + MatchEvents(o, fs, left, old(sequence), now)
      ensures sequence == old(sequence) + |MatchEvents(o, fs, left, old(sequence), now)|
      ensures priority == old(priority) && state == old(state)
    {
      PublishTrades(o, trades, now, fs, id);
      if left > 0 && !o.kind.Market? && !o.kind.Ioc? && !o.kind.Fok? {
        Publish(AcceptedEvent(o, left, sequence, now));
      }
    }

    // ----- commands -----------------------------------------------------------------------------------------

    /** `after` is the caller's order as it comes back, with its priority and what remains of it. */
    method ProcessOrder(order: Order, healthy: bool, now: nat) returns (trades: seq<Trade>, after: Order)
      requires Valid()
      modifies Repr()
      ensures Valid()
      ensures var s := if old(state).Halted? || !healthy then Stepped(old(Abs()), [])
                       else DoProcess(old(Abs()), order, now, book.Capacity());
              Abs() == s.engine && published == old(published) + s.events
      ensures if old(state).Halted? || !healthy || old(priority) == MAX_PRIORITY then trades == [] && after == order
              else
                var o := order.(priority := old(priority));
                var m := Match(old(book.View()), o, old(book.policy), book.Capacity());
                trades == TradesOf(o, m.fills, old(book.nextTradeId)) && after == o.(remaining := m.left)
    {
      hide Match, TradeEvents, Kept, Slots, Orders, InStore;
      if state.Halted? || !healthy {
        return [], order;
      }
      var p := TryNextPriority();
      if p.None? {
        Halt();
        return [], order;
      }
      var o := order.(priority := p.value);
      ghost var b, id := book.View(), book.nextTradeId;
      var left;
      trades, left := book.MatchOrder(o);
      ghost var m := Match(b, o, book.policy, book.Capacity());
      PublishMatch(o, trades, left, now, m.fills, id);
      after := o.(remaining := left);
    }

    method CancelOrder(id: nat, healthy: bool, now: nat) returns (ok: bool)
      requires Valid()
      modifies Repr()
      ensures Valid()
      ensures var s := if old(state).Halted? || !healthy then Stepped(old(Abs()), [])
                       else DoCancel(old(Abs()), id, now);
              Abs() == s.engine && published == old(published) + s.events
      ensures ok <==> !old(state).Halted? && healthy && old(book.View()).Contains(id)
    {
      hide Flat.CancelOrder, Position, Has, Kept, Slots, Orders, InStore;
      if state.Halted? || !healthy {
        return false;
      }
      var was := book.GetOrder(id);
      if was.None? {
        return false;
      }
      ok := book.CancelOrder(id);
      if ok {
        Publish(Cancelled(now, sequence, was.value.id, was.value.symbol, was.value.trader % U32, was.value.remaining));
      }
    }

    method ReplaceOrder(id: nat, price: int, quantity: nat, healthy: bool, now: nat)
      returns (ok: bool, trades: seq<Trade>, left: nat)
      requires Valid() && WellFilled(book.View())
      modifies Repr()
      ensures Valid()
      ensures var s := if old(state).Halted? || !healthy then Stepped(old(Abs()), [])
                       else DoReplace(old(Abs()), id, price, quantity, now, book.Capacity());
              Abs() == s.engine && published == old(published) + s.events
      ensures Reply(ok, trades, left) == if old(state).Halted? || !healthy then REFUSED
                                         else ReplaceReply(old(Abs()), id, price, quantity, book.Capacity())
    {
      hide PublishReplace, ReplyOf, Flat.ReplaceOrder, Position, Has, Kept, Slots, Orders, InStore;
      if state.Halted? || !healthy {
        return false, [], 0;
      }
      var found := book.GetOrder(id);
      if found.None? || (quantity > 0 && price <= 0) {
        return false, [], 0;
      }
      var was := found.value;
      var replacement := ClaimPriority(was, price, quantity);
      if replacement.None? {
        return false, [], 0;
      }
      ok, trades, left := ReplaceAndPublish(was, price, quantity, replacement.value, now);
    }

    /** The priority of the replacement: a new one if the order gives up its place; none left halts the engine. */
    method ClaimPriority(was: Order, price: int, quantity: nat) returns (p: Option<nat>)
      modifies this
      ensures sequence == old(sequence) && published == old(published)
      ensures if quantity > 0 && (price != was.price || quantity > was.quantity) then
                if old(priority) == MAX_PRIORITY then p == None && state == Halted && priority == old(priority)
                else p == Some(old(priority)) && state == old(state) && priority == old(priority) + 1
              else p == Some(was.priority) && state == old(state) && priority == old(priority)
    {
      if quantity > 0 && (price != was.price || quantity > was.quantity) {
        p := TryNextPriority();
        if p.None? {
          Halt();
        }
      } else {
        p := Some(was.priority);
      }
    }

    /** The book's replace, and its events: the cancellation of the old order, then the match of the new one. */
    method ReplaceAndPublish(was: Order, price: int, quantity: nat, replacement: nat, now: nat)
      returns (ok: bool, trades: seq<Trade>, left: nat)
      requires Valid() && book.View().Contains(was.id) && was == book.View().Lookup(was.id)
               && was.remaining <= was.quantity
      modifies Repr()
      ensures Valid()
      ensures var s := PublishReplace(old(Abs()), was, price, quantity, replacement, now, book.Capacity());
              Abs() == s.engine && published == old(published) + s.events
      ensures var r := Flat.ReplaceOrder(old(book.View()), was.id, price, quantity, replacement, old(book.policy),
                                         book.Capacity());
              Reply(ok, trades, left) == ReplyOf(was, r, old(book.nextTradeId))
    {
      hide Flat.ReplaceOrder, TradesOf, MatchEvents, CancelEvent, Position, Kept, Slots, Orders, InStore;
      ghost var b, tid := book.View(), book.nextTradeId;
      ok, trades, left := book.ReplaceOrder(was.id, price, quantity, replacement);
      if !ok {
        return;
      }
      ghost var r := Flat.ReplaceOrder(b, was.id, price, quantity, replacement, book.policy, book.Capacity());
      ReplacedFilled(b, was.id, price, quantity, replacement, book.policy, book.Capacity());
      Publish(CancelEvent(was, sequence, now));
      var issued := if quantity == 0 then was else Reissue(was, price, quantity, replacement);
      SameTrades(was, issued, r.fills, tid);
      PublishMatch(issued, trades, if quantity > 0 then left else 0, now, r.fills, tid);
    }

    lemma ReplacedFilled(b: Book, id: nat, price: int, quantity: nat, priority: nat, policy: StpPolicy, capacity: nat)
      requires b.Contains(id) && b.Lookup(id).remaining <= b.Lookup(id).quantity
      requires Flat.ReplaceOrder(b, id, price, quantity, priority, policy, capacity).Replaced?
      ensures quantity == 0 || b.Lookup(id).quantity - b.Lookup(id).remaining <= quantity
    {
      hide Match;
    }

    // ----- recovery entry points ------------------------------------------------------------------------------

    /** Rests a journaled LIMIT order whose id is not yet in the book. */
    method RestoreOrder(o: Order, remaining: nat) returns (ok: bool)
      requires Valid()
      modifies Repr()
      ensures Valid() && unchanged(this) && book.nextTradeId == old(book.nextTradeId) && book.policy == old(book.policy)
      ensures var b, x := old(book.View()), o.(remaining := remaining);
              && (ok <==> o.kind.Limit? && 0 < remaining <= o.quantity && o.price > 0 && !b.Contains(o.id)
                          && CanRest(b, x, book.Capacity()))
              && book.View() == if ok then Flat.AddOrder(b, x, book.Capacity()) else b
    {
      hide Insert, Kept, Slots, Orders, InStore;
      if !o.kind.Limit? || remaining == 0 || remaining > o.quantity || o.price <= 0 {
        return false;
      }
      var existing := book.GetOrder(o.id);
      if existing.Some? {
        return false;
      }
      ok := book.AddOrder(o.(remaining := remaining));
    }
  }
}
