/** Runs whose journal does not rebuild the book, and a run that breaks time priority. */
module Unfaithful {
  import opened Types
  import opened PriorityList
  import opened Book
  import opened Engine
  import opened EngineInvariant
  import opened Replay
  import opened EngineReplay
  import opened CrashConsistency

  /** After any faithful run of a new engine, the whole journal still rebuilds the book after one more command if and
      only if that command is faithful. */
  lemma LastCommandIff(cs: seq<Command>, c: Command, capacity: nat)
    requires Playable(NEW_ENGINE, cs, capacity)
    requires var e := Run(NEW_ENGINE, cs, capacity).engine;
             && WellFilled(e.book) && Admissible(e.book, c)
             && e.sequence + |Step(e, c, capacity).events| + 1 < U64
    ensures var s := Run(NEW_ENGINE, cs, capacity);
            var t := Step(s.engine, c, capacity);
            Rebuilds(FRESH, s.events + t.events, t.engine.book, capacity) <==> StepFaithful(s.engine, c, capacity)
  {
    hide Step, StepFaithful, Run, Playable, ReplayAll, Linked;
    NewLinked(capacity);
    RunReplays(NEW_ENGINE, FRESH, cs, capacity);
    var s := Run(NEW_ENGINE, cs, capacity);
    var r := ReplayAll(FRESH, s.events, capacity).at;
    ReplayConcat(FRESH, s.events, Step(s.engine, c, capacity).events, capacity);
    StepReplaysIff(s.engine, r, c, capacity);
  }

  // ----- one resting order --------------------------------------------------------------------------------

  /** A new engine with a policy, and then one sell order that rests. */
  function OneSell(policy: StpPolicy, o: Order): seq<Command> { [SetPolicy(policy), Process(o, true, 0)] }

  lemma OneSellRun(policy: StpPolicy, o: Order, capacity: nat)
    requires Submittable(o) && o.kind.Limit? && o.side.Sell? && o.trader < U32 && capacity > 0
    ensures Playable(NEW_ENGINE, OneSell(policy, o), capacity)
    ensures Run(NEW_ENGINE, OneSell(policy, o), capacity).engine
            == Engine(Book([], [o.(priority := 0)]), 1, 1, 1, policy, Ready)
  {
    var e, x, c := NEW_ENGINE.(policy := policy), o.(priority := 0), Process(o, true, 0);
    NoCrossRests(EMPTY, x, policy, capacity);
    assert Insert(Sell, [], x) == [x];
    var e' := Engine(Book([], [x]), 1, 1, 1, policy, Ready);
    assert Step(e, c, capacity).engine == e' && |Step(e, c, capacity).events| == 1;
    assert StepFaithful(e, c, capacity);
    hide Step, StepFaithful;
    assert OneSell(policy, o)[1..] == [c] && [c][1..] == [];
    assert Playable(e, [c], capacity);
    assert Step(NEW_ENGINE, SetPolicy(policy), capacity) == Stepped(e, []) by { PolicyStep(policy, capacity); }
    assert Run(e, [c], capacity).engine == e';
  }

  lemma PolicyStep(policy: StpPolicy, capacity: nat)
    ensures Step(NEW_ENGINE, SetPolicy(policy), capacity) == Stepped(NEW_ENGINE.(policy := policy), [])
    ensures StepFaithful(NEW_ENGINE, SetPolicy(policy), capacity) && WellFilled(EMPTY)
  {}

  /** The journal of one sell order and one more order does not rebuild the book. */
  ghost predicate Lost(policy: StpPolicy, first: Order, second: Order, capacity: nat)
    requires Playable(NEW_ENGINE, OneSell(policy, first), capacity)
    requires WellFilled(Run(NEW_ENGINE, OneSell(policy, first), capacity).engine.book)
  {
    var s := Run(NEW_ENGINE, OneSell(policy, first), capacity);
    var t := Step(s.engine, Process(second, true, 0), capacity);
    !Rebuilds(FRESH, s.events + t.events, t.engine.book, capacity)
  }

  /** A buy order of the trader who rests the sell order: under every policy that intervenes, the cancellation or the
      refusal is not in the journal. */
  lemma StpExample(policy: StpPolicy)
    requires !policy.NoStp?
    ensures var sell := Order(1, 7, 0, Sell, Limit, 100, 5, 5, 0);
            var buy := Order(2, 7, 0, Buy, Limit, 100, 5, 5, 0);
            && Playable(NEW_ENGINE, OneSell(policy, sell), 10)
            && WellFilled(Run(NEW_ENGINE, OneSell(policy, sell), 10).engine.book) && Lost(policy, sell, buy, 10)
  {
    var sell, buy := Order(1, 7, 0, Sell, Limit, 100, 5, 5, 0), Order(2, 7, 0, Buy, Limit, 100, 5, 5, 0);
    OneSellRun(policy, sell, 10);
    StpUnfaithful(policy);
    hide Run, Playable, Step, StepFaithful;
    LastCommandIff(OneSell(policy, sell), Process(buy, true, 0), 10);
  }

  lemma StpUnfaithful(policy: StpPolicy)
    requires !policy.NoStp?
    ensures var e := Engine(Book([], [Order(1, 7, 0, Sell, Limit, 100, 5, 5, 0)]), 1, 1, 1, policy, Ready);
            var c := Process(Order(2, 7, 0, Buy, Limit, 100, 5, 5, 0), true, 0);
            WellFilled(e.book) && Admissible(e.book, c) && !StepFaithful(e, c, 10) && |Step(e, c, 10).events| <= 1
  {}

  /** A second sell order finds a pool of one slot exhausted: it is published as accepted and does not rest. */
  lemma PoolExample()
    ensures var first := Order(1, 7, 0, Sell, Limit, 100, 5, 5, 0);
            var second := Order(2, 8, 0, Sell, Limit, 101, 5, 5, 0);
            && Playable(NEW_ENGINE, OneSell(NoStp, first), 1)
            && WellFilled(Run(NEW_ENGINE, OneSell(NoStp, first), 1).engine.book) && Lost(NoStp, first, second, 1)
  {
    var first, second := Order(1, 7, 0, Sell, Limit, 100, 5, 5, 0), Order(2, 8, 0, Sell, Limit, 101, 5, 5, 0);
    OneSellRun(NoStp, first, 1);
    hide Run, Playable;
    var e := Run(NEW_ENGINE, OneSell(NoStp, first), 1).engine;
    assert |Step(e, Process(second, true, 0), 1).events| == 1;
    LastCommandIff(OneSell(NoStp, first), Process(second, true, 0), 1);
  }

  /** Trader 2^32 + 5 rests, and its journal says trader 5. */
  lemma WideTraderExample()
    ensures var first := Order(1, 7, 0, Sell, Limit, 100, 5, 5, 0);
            var second := Order(2, U32 + 5, 0, Sell, Limit, 101, 5, 5, 0);
            && Playable(NEW_ENGINE, OneSell(NoStp, first), 10)
            && WellFilled(Run(NEW_ENGINE, OneSell(NoStp, first), 10).engine.book) && Lost(NoStp, first, second, 10)
  {
    var first, second := Order(1, 7, 0, Sell, Limit, 100, 5, 5, 0), Order(2, U32 + 5, 0, Sell, Limit, 101, 5, 5, 0);
    OneSellRun(NoStp, first, 10);
    hide Run, Playable;
    var e := Run(NEW_ENGINE, OneSell(NoStp, first), 10).engine;
    assert |Step(e, Process(second, true, 0), 10).events| == 1;
    LastCommandIff(OneSell(NoStp, first), Process(second, true, 0), 10);
  }

  /** A same-price decrease of the only order. */
  lemma KeptExample()
    ensures var sell := Order(1, 7, 0, Sell, Limit, 100, 5, 5, 0);
            var c := Replace(1, 100, 3, true, 0);
            && Playable(NEW_ENGINE, OneSell(NoStp, sell), 10)
            && var s := Run(NEW_ENGINE, OneSell(NoStp, sell), 10);
               && WellFilled(s.engine.book)
               && var t := Step(s.engine, c, 10); !Rebuilds(FRESH, s.events + t.events, t.engine.book, 10)
  {
    var sell, c := Order(1, 7, 0, Sell, Limit, 100, 5, 5, 0), Replace(1, 100, 3, true, 0);
    OneSellRun(NoStp, sell, 10);
    KeptUnfaithful();
    hide Run, Playable, Step, StepFaithful;
    LastCommandIff(OneSell(NoStp, sell), c, 10);
  }

  lemma KeptUnfaithful()
    ensures var e := Engine(Book([], [Order(1, 7, 0, Sell, Limit, 100, 5, 5, 0)]), 1, 1, 1, NoStp, Ready);
            var c := Replace(1, 100, 3, true, 0);
            WellFilled(e.book) && !StepFaithful(e, c, 10) && |Step(e, c, 10).events| <= 2
  {
    var q := [Order(1, 7, 0, Sell, Limit, 100, 5, 5, 0)];
    assert q[0].id == 1 && Position(q, 1) == 0;
  }

  // ----- time priority ------------------------------------------------------------------------------------

  /** Two bids at one price; replacing the first on its own terms puts it behind the second. */
  lemma ShuffleExample()
    ensures var a, b := Order(1, 7, 0, Buy, Limit, 100, 5, 5, 0), Order(2, 8, 0, Buy, Limit, 100, 5, 5, 1);
            var e1 := Step(NEW_ENGINE, Process(a, true, 0), 10).engine;
            && WellFilled(e1.book)
            && var e2 := Step(e1, Process(b, true, 0), 10).engine;
               && e2.book == Book([a, b], []) && FifoBook(e2.book) && Shuffles(e2, Replace(1, 100, 5, true, 0))
               && WellFilled(e2.book) && !FifoBook(Step(e2, Replace(1, 100, 5, true, 0), 10).engine.book)
  {
    TwoBids();
    var a, b := Order(1, 7, 0, Buy, Limit, 100, 5, 5, 0), Order(2, 8, 0, Buy, Limit, 100, 5, 5, 1);
    var e, c := Engine(Book([a, b], []), 2, 2, 1, NoStp, Ready), Replace(1, 100, 5, true, 0);
    TwoBidsSane(e, a, b);
    TwoBidsShuffle(e, a, b);
    hide Step, Sane, FifoBook, Shuffles, WellFilled;
    FifoIff(e, c, 10);
  }

  lemma TwoBidsSane(e: Engine, a: Order, b: Order)
    requires e.book == Book([a, b], []) && e.priority == 2 && a.price == b.price && a.id != b.id
    requires forall o <- {a, b} :: Resting(Buy, o) && o.id > 0 && o.trader > 0 && o.priority < 2
    requires a.priority < b.priority
    ensures Sane(e, 10) && FifoBook(e.book)
  {
    assert Shaped(Buy, [a, b]);
  }

  lemma TwoBidsShuffle(e: Engine, a: Order, b: Order)
    requires e.book == Book([a, b], []) && e.state.Ready? && a.price == b.price && 0 < a.remaining && 0 < a.quantity
    ensures Shuffles(e, Replace(a.id, a.price, a.quantity, true, 0))
  {
    assert e.book.bids[0].id == a.id && Position(e.book.bids, a.id) == 0;
  }

  lemma TwoBids()
    ensures var a, b := Order(1, 7, 0, Buy, Limit, 100, 5, 5, 0), Order(2, 8, 0, Buy, Limit, 100, 5, 5, 1);
            var e1 := Step(NEW_ENGINE, Process(a, true, 0), 10).engine;
            WellFilled(e1.book)
            && Step(e1, Process(b, true, 0), 10).engine == Engine(Book([a, b], []), 2, 2, 1, NoStp, Ready)
  {
    var a, b := Order(1, 7, 0, Buy, Limit, 100, 5, 5, 0), Order(2, 8, 0, Buy, Limit, 100, 5, 5, 1);
    NoCrossRests(EMPTY, a, NoStp, 10);
    assert Insert(Buy, [], a) == [a];
    var e1 := Step(NEW_ENGINE, Process(a, true, 0), 10).engine;
    assert e1 == Engine(Book([a], []), 1, 1, 1, NoStp, Ready);
    NoCrossRests(e1.book, b, NoStp, 10);
    assert InsertPoint(Buy, [a], 100) == 1;
    assert Insert(Buy, [a], b) == [a, b];
    hide Match;
  }
}
