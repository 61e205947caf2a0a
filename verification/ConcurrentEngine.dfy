/** The order ring with one empty slot, and the consumer thread that drains it into the engine. */
module ConcurrentEngine {
  import opened Types
  import opened Engine
  import E = Engine
  import Ring = JournalRing
  import opened Arithmetic

  datatype Backpressure = Reject | Block | Drop

  /** Where the submitting thread stands. */
  datatype Submitter =
    | Outside
    | TestRunning(order: Order)
    | LoadTail(order: Order)
    | TestFull(order: Order, tail: nat)
    | Writing(order: Order, tail: nat)
    | Storing(order: Order, tail: nat)

  /** Where the consumer thread stands. */
  datatype Consumer =
    | LoopTest
    | EmptyTest
    | Popping
    | Reading(head: nat)
    | Advancing(order: Order, head: nat)
    | Processing(order: Order)
    | Finished

  /** What one call of `processOrder` found: the order, the journal's health, the clock. */
  datatype Call = Call(order: Order, healthy: bool, now: nat)

  /** `accepted` lists the orders whose submission succeeded, `popped` those taken from the ring, `calls` those
      processed.
      `submitted` counts the calls, `refused` those turned away by a full ring, `late` those turned away by a stop;
      `clean` says that no submission was past its check when the engine was stopped. */
  datatype System = System(
    k: nat, buffer: seq<Order>, head: nat, tail: nat, running: bool, policy: Backpressure, dropped: nat,
    submitter: Submitter, consumer: Consumer, engine: Engine,
    accepted: seq<Order>, popped: seq<Order>, calls: seq<Call>, submitted: nat, refused: nat, late: nat, clean: bool)

  datatype Action = Submit(order: Order) | SubmitterStep | ConsumerStep(healthy: bool, now: nat) | Stop

  /** A submission that has passed its `running` check and not yet published its slot. */
  predicate InFlight(u: Submitter) { u.LoadTail? || u.TestFull? || u.Writing? || u.Storing? }

  function Slots(s: System): nat { Ring.Pow2(s.k) }

  function Mask(s: System, n: nat): nat { Ring.And(n, Slots(s) - 1) }

  function ProcessOne(e: Engine, c: Call, capacity: nat): Engine {
    if e.state.Halted? || !c.healthy then e else DoProcess(e, c.order, c.now, capacity).engine
  }

  /** The engine after processing the calls one after another, on one thread. */
  function Sequential(e: Engine, cs: seq<Call>, capacity: nat): Engine {
    if cs == [] then e else ProcessOne(Sequential(e, cs[..|cs| - 1], capacity), cs[|cs| - 1], capacity)
  }

  function SubmitterNext(s: System): System {
    match s.submitter
    case Outside => s
    case TestRunning(o) =>
      if s.running then s.(submitter := LoadTail(o)) else s.(submitter := Outside, late := s.late + 1)
    case LoadTail(o) => s.(submitter := TestFull(o, s.tail))
    case TestFull(o, t) =>
      if Mask(s, t + 1) != s.head then s.(submitter := Writing(o, t))
      else (match s.policy
            case Reject => s.(submitter := Outside, refused := s.refused + 1)
            case Block => s.(submitter := TestRunning(o))
            case Drop => s.(submitter := Outside, dropped := s.dropped + 1))
    case Writing(o, t) => if t < |s.buffer| then s.(buffer := s.buffer[t := o], submitter := Storing(o, t)) else s
    case Storing(o, t) => s.(tail := Mask(s, t + 1), accepted := s.accepted + [o], submitter := Outside)
  }

  function ConsumerNext(s: System, healthy: bool, now: nat, capacity: nat): System {
    match s.consumer
    case LoopTest => s.(consumer := if s.running then Popping else EmptyTest)
    case EmptyTest => s.(consumer := if s.head == s.tail then Finished else Popping)
    case Popping => s.(consumer := if s.head == s.tail then LoopTest else Reading(s.head))
    case Reading(h) => if h < |s.buffer| then s.(consumer := Advancing(s.buffer[h], h)) else s
    case Advancing(o, h) => s.(head := Mask(s, h + 1), popped := s.popped + [o], consumer := Processing(o))
    case Processing(o) =>
      var c := Call(o, healthy, now);
      s.(engine := ProcessOne(s.engine, c, capacity), calls := s.calls + [c], consumer := LoopTest)
    case Finished => s
  }

  function Step(s: System, a: Action, capacity: nat): System {
    match a
    case Submit(o) =>
      if s.submitter.Outside? then s.(submitter := TestRunning(o), submitted := s.submitted + 1) else s
    case SubmitterStep => SubmitterNext(s)
    case ConsumerStep(healthy, now) => ConsumerNext(s, healthy, now, capacity)
    case Stop => if s.running then s.(running := false, clean := !InFlight(s.submitter)) else s
  }

  function Run(s: System, actions: seq<Action>, capacity: nat): System
    decreases |actions|
  {
    if actions == [] then s else Run(Step(s, actions[0], capacity), actions[1..], capacity)
  }

  /** A started engine: the consumer is about to enter its loop. */
  predicate Initial(s: System) {
    && 1 <= s.k <= 63 && |s.buffer| == Slots(s) && s.head == s.tail == 0 && s.running && s.clean
    && s.submitter == Outside && s.consumer == LoopTest && s.accepted == s.popped == [] && s.calls == []
    && s.submitted == s.refused == s.late == 0
  }

  // ----- the invariant --------------------------------------------------------------------------------

  function Wrap(n: nat, c: nat): (r: nat)
    requires c > 0
    ensures r < c
  {
    n % c
  }

  /** The ring holds what was accepted and not yet popped; one slot always stays empty. */
  ghost predicate RingOk(c: nat, buffer: seq<Order>, head: nat, tail: nat, accepted: seq<Order>, popped: seq<Order>) {
    && 1 < c == |buffer| && head == Wrap(|popped|, c) && tail == Wrap(|accepted|, c)
    && |popped| <= |accepted| < |popped| + c && popped == accepted[..|popped|]
    && forall n :: |popped| <= n < |accepted| ==> buffer[Wrap(n, c)] == accepted[n]
  }

  ghost predicate SubmitterOk(u: Submitter, c: nat, buffer: seq<Order>, tail: nat, accepted: nat, popped: nat) {
    match u
    case TestFull(_, t) => t == tail
    case Writing(_, t) => t == tail && accepted + 1 < popped + c
    case Storing(o, t) => t == tail < |buffer| && accepted + 1 < popped + c && buffer[tail] == o
    case _ => true
  }

  ghost predicate ConsumerOk(d: Consumer, head: nat, accepted: seq<Order>, popped: seq<Order>) {
    match d
    case Reading(h) => h == head && |popped| < |accepted|
    case Advancing(o, h) => h == head && |popped| < |accepted| && o == accepted[|popped|]
    case Processing(o) => |popped| > 0 && o == popped[|popped| - 1]
    case _ => true
  }

  function OrdersOf(cs: seq<Call>): seq<Order> { seq(|cs|, i requires 0 <= i < |cs| => cs[i].order) }

  ghost predicate CallsOk(d: Consumer, e: Engine, calls: seq<Call>, popped: seq<Order>, e0: Engine, capacity: nat) {
    && e == Sequential(e0, calls, capacity)
    && OrdersOf(calls) == if d.Processing? && |popped| > 0 then popped[..|popped| - 1] else popped
  }

  /** After a clean stop nothing more is accepted, so an empty ring stays empty. */
  ghost predicate StopOk(u: Submitter, d: Consumer, running: bool, clean: bool, accepted: nat, popped: nat) {
    && (!running && clean ==> u.Outside? || u.TestRunning?)
    && (d.EmptyTest? || d.Finished? ==> !running)
    && (d.Finished? && clean ==> popped == accepted)
  }

  ghost predicate Inv(s: System, e0: Engine, capacity: nat) {
    && 1 <= s.k <= 63
    && RingOk(Slots(s), s.buffer, s.head, s.tail, s.accepted, s.popped)
    && SubmitterOk(s.submitter, Slots(s), s.buffer, s.tail, |s.accepted|, |s.popped|)
    && ConsumerOk(s.consumer, s.head, s.accepted, s.popped)
    && CallsOk(s.consumer, s.engine, s.calls, s.popped, e0, capacity)
    && StopOk(s.submitter, s.consumer, s.running, s.clean, |s.accepted|, |s.popped|)
  }

  lemma NextIndex(s: System, n: nat)
    ensures Mask(s, Wrap(n, Slots(s)) + 1) == Wrap(n + 1, Slots(s))
  {
    hide Ring.Pow2, Ring.And;
    var c := Slots(s);
    var m := n % c + 1;
    Ring.MaskIsMod(m, s.k);
    assert n + 1 == c * (n / c + m / c) + m % c;
    DivModUnique(n + 1, c, n / c + m / c, m % c);
  }

  lemma DifferentIndex(m: nat, n: nat, c: nat)
    requires m < n < m + c
    ensures Wrap(m, c) != Wrap(n, c)
  {
    Ring.DifferentSlots(m, n, c);
  }

  lemma SameIndex(n: nat, c: nat)
    requires c > 0
    ensures Wrap(n + c, c) == Wrap(n, c)
  {
    DivModUnique(n + c, c, n / c + 1, n % c);
  }

  /** The ring is reported full exactly when all but one slot hold waiting orders. */
  lemma FullIff(s: System)
    requires RingOk(Slots(s), s.buffer, s.head, s.tail, s.accepted, s.popped)
    ensures Mask(s, s.tail + 1) == s.head <==> |s.accepted| + 1 == |s.popped| + Slots(s)
  {
    hide Mask, Wrap, Slots;
    var c := Slots(s);
    NextIndex(s, |s.accepted|);
    if |s.accepted| + 1 == |s.popped| + c { SameIndex(|s.popped|, c); }
    else { DifferentIndex(|s.popped|, |s.accepted| + 1, c); }
  }

  lemma EmptyIff(s: System)
    requires RingOk(Slots(s), s.buffer, s.head, s.tail, s.accepted, s.popped)
    ensures s.head == s.tail <==> |s.popped| == |s.accepted|
  {
    hide Wrap, Slots;
    if |s.popped| < |s.accepted| { DifferentIndex(|s.popped|, |s.accepted|, Slots(s)); }
  }

  lemma WriteKeeps(s: System, e0: Engine, capacity: nat)
    requires Inv(s, e0, capacity) && s.submitter.Writing?
    ensures Inv(SubmitterNext(s), e0, capacity)
  {
    hide Wrap, CallsOk;
    forall n | |s.popped| <= n < |s.accepted| ensures Wrap(n, Slots(s)) != s.tail {
      DifferentIndex(n, |s.accepted|, Slots(s));
    }
    hide Slots, Mask;
  }

  lemma StoreKeeps(s: System, e0: Engine, capacity: nat)
    requires Inv(s, e0, capacity) && s.submitter.Storing?
    ensures Inv(SubmitterNext(s), e0, capacity)
  {
    hide Wrap, CallsOk, Mask, Ring.Pow2;
    NextIndex(s, |s.accepted|);
    assert SubmitterNext(s).accepted[..|s.popped|] == s.accepted[..|s.popped|];
  }

  lemma SubmitterKeeps(s: System, e0: Engine, capacity: nat)
    requires Inv(s, e0, capacity)
    ensures Inv(SubmitterNext(s), e0, capacity)
  {
    hide Wrap, CallsOk, Mask, Ring.Pow2;
    match s.submitter
    case Writing(_, _) => WriteKeeps(s, e0, capacity);
    case Storing(_, _) => StoreKeeps(s, e0, capacity);
    case TestFull(_, _) => FullIff(s);
    case _ =>
  }

  lemma AdvanceKeeps(s: System, e0: Engine, capacity: nat, healthy: bool, now: nat)
    requires Inv(s, e0, capacity) && s.consumer.Advancing?
    ensures Inv(ConsumerNext(s, healthy, now, capacity), e0, capacity)
  {
    hide Wrap, Sequential, Mask, Ring.Pow2, ProcessOne;
    NextIndex(s, |s.popped|);
    var s' := ConsumerNext(s, healthy, now, capacity);
    assert s.accepted[..|s.popped| + 1] == s.accepted[..|s.popped|] + [s.accepted[|s.popped|]];
    assert s'.popped[..|s'.popped| - 1] == s.popped;
  }

  lemma ProcessKeeps(s: System, e0: Engine, capacity: nat, healthy: bool, now: nat)
    requires Inv(s, e0, capacity) && s.consumer.Processing?
    ensures Inv(ConsumerNext(s, healthy, now, capacity), e0, capacity)
  {
    hide RingOk, Mask, ProcessOne, Ring.Pow2;
    var s' := ConsumerNext(s, healthy, now, capacity);
    assert s'.calls[..|s.calls|] == s.calls;
    assert s.popped == s.popped[..|s.popped| - 1] + [s.popped[|s.popped| - 1]];
  }

  lemma ConsumerKeeps(s: System, e0: Engine, capacity: nat, healthy: bool, now: nat)
    requires Inv(s, e0, capacity)
    ensures Inv(ConsumerNext(s, healthy, now, capacity), e0, capacity)
  {
    hide Wrap, Sequential, Mask, Ring.Pow2, ProcessOne;
    EmptyIff(s);
    match s.consumer
    case Advancing(_, _) => AdvanceKeeps(s, e0, capacity, healthy, now);
    case Processing(_) => ProcessKeeps(s, e0, capacity, healthy, now);
    case _ =>
  }

  lemma StepKeeps(s: System, a: Action, e0: Engine, capacity: nat)
    requires Inv(s, e0, capacity)
    ensures Inv(Step(s, a, capacity), e0, capacity)
  {
    hide SubmitterNext, ConsumerNext, RingOk, CallsOk;
    match a
    case SubmitterStep => SubmitterKeeps(s, e0, capacity);
    case ConsumerStep(healthy, now) => ConsumerKeeps(s, e0, capacity, healthy, now);
    case _ =>
  }

  lemma {:induction false} RunKeeps(s: System, actions: seq<Action>, e0: Engine, capacity: nat)
    requires Inv(s, e0, capacity)
    ensures Inv(Run(s, actions, capacity), e0, capacity)
    decreases |actions|
  {
    hide Inv, Step;
    if actions != [] {
      StepKeeps(s, actions[0], e0, capacity);
      RunKeeps(Step(s, actions[0], capacity), actions[1..], e0, capacity);
    }
  }

  lemma InitialInv(s: System, capacity: nat)
    requires Initial(s)
    ensures Inv(s, s.engine, capacity)
  {}

  /** At every moment the engine is what one thread would have made of the orders processed so far, and these are a
      prefix of the accepted orders; once the consumer has finished after a clean stop, they are all of them. */
  lemma DrainsInOrder(s0: System, actions: seq<Action>, capacity: nat)
    requires Initial(s0)
    ensures var s := Run(s0, actions, capacity);
            && s.engine == Sequential(s0.engine, s.calls, capacity)
            && OrdersOf(s.calls) <= s.accepted
            && (s.consumer.Finished? && s.clean ==> OrdersOf(s.calls) == s.accepted)
  {
    InitialInv(s0, capacity);
    RunKeeps(s0, actions, s0.engine, capacity);
    hide Run, Sequential, Wrap;
    var s := Run(s0, actions, capacity);
    assert s.accepted[..|s.accepted|] == s.accepted;
  }

  // ----- what becomes of a submission -------------------------------------------------------------------------

  /** At the full test the order goes on if a slot is free besides the empty one; otherwise REJECT turns it away, DROP
      counts it as dropped, and BLOCK tries again. */
  lemma FullOutcome(s: System)
    requires RingOk(Slots(s), s.buffer, s.head, s.tail, s.accepted, s.popped)
    requires s.submitter.TestFull? && s.submitter.tail == s.tail
    ensures var s', waiting := SubmitterNext(s), |s.accepted| - |s.popped|;
            && s'.accepted == s.accepted
            && if waiting + 1 < Slots(s) then
                 && s'.submitter == Writing(s.submitter.order, s.tail)
                 && s'.dropped == s.dropped && s'.refused == s.refused
               else match s.policy
                 case Reject => s'.submitter.Outside? && s'.refused == s.refused + 1 && s'.dropped == s.dropped
                 case Drop => s'.submitter.Outside? && s'.dropped == s.dropped + 1 && s'.refused == s.refused
                 case Block => s'.submitter == TestRunning(s.submitter.order) && s'.dropped == s.dropped
                               && s'.refused == s.refused
  {
    FullIff(s);
    hide Mask, Slots, Wrap;
  }

  /** Every call is accounted for, and only the policy in force turns orders away. */
  ghost predicate Accounted(s: System, dropped: nat) {
    && dropped <= s.dropped
    && s.submitted
       == |s.accepted| + (s.dropped - dropped) + s.refused + s.late + (if s.submitter.Outside? then 0 else 1)
    && (s.policy != Drop ==> s.dropped == dropped) && (s.policy != Reject ==> s.refused == 0)
    && (s.late > 0 ==> !s.running)
  }

  lemma SubmitterAccounted(s: System, dropped: nat)
    requires Accounted(s, dropped)
    ensures Accounted(SubmitterNext(s), dropped)
  {
    hide Mask;
  }

  lemma ConsumerAccounted(s: System, dropped: nat, healthy: bool, now: nat, capacity: nat)
    requires Accounted(s, dropped)
    ensures Accounted(ConsumerNext(s, healthy, now, capacity), dropped)
  {
    hide Mask, ProcessOne;
  }

  lemma {:induction false} RunAccounted(s: System, actions: seq<Action>, dropped: nat, capacity: nat)
    requires Accounted(s, dropped)
    ensures Accounted(Run(s, actions, capacity), dropped)
    decreases |actions|
  {
    if actions != [] {
      hide SubmitterNext, ConsumerNext;
      match actions[0] {
        case SubmitterStep => SubmitterAccounted(s, dropped);
        case ConsumerStep(healthy, now) => ConsumerAccounted(s, dropped, healthy, now, capacity);
        case _ =>
      }
      RunAccounted(Step(s, actions[0], capacity), actions[1..], dropped, capacity);
    }
  }

  /** In every interleaving, each call was accepted, dropped, refused, too late, or is still in progress; only DROP
      drops, only REJECT refuses, and a call is too late only after a stop. So under BLOCK a running engine has accepted
      every call that has returned. */
  lemma SubmissionsAccounted(s0: System, actions: seq<Action>, capacity: nat)
    requires Initial(s0)
    ensures var s := Run(s0, actions, capacity);
            Accounted(s, s0.dropped)
            && (s.policy == Block && s.running ==>
                  s.submitted == |s.accepted| + (if s.submitter.Outside? then 0 else 1))
  {
    RunAccounted(s0, actions, s0.dropped, capacity);
  }

  /** Processing one order is the engine's own step. */
  lemma ProcessOneIsStep(e: Engine, c: Call, capacity: nat)
    requires WellFilled(e.book)
    ensures ProcessOne(e, c, capacity) == E.Step(e, Process(c.order, c.healthy, c.now), capacity).engine
  {}

  // ----- exactly when a stop drains -----------------------------------------------------------------------

  lemma {:induction false} RunConcat(s: System, a: seq<Action>, b: seq<Action>, capacity: nat)
    ensures Run(s, a + b, capacity) == Run(Run(s, a, capacity), b, capacity)
    decreases |a|
  {
    hide Step;
    if a == [] {
      assert a + b == b;
    } else {
      assert (a + b)[1..] == a[1..] + b;
      RunConcat(Step(s, a[0], capacity), a[1..], b, capacity);
    }
  }

  lemma RunOne(s: System, a: Action, capacity: nat)
    ensures Run(s, [a], capacity) == Step(s, a, capacity)
  {
    hide Step;
    assert [a][1..] == [];
  }

  /** How far the consumer is from leaving, once the engine is stopped and nothing more is accepted. */
  function Work(d: Consumer, waiting: nat): nat {
    8 * waiting + (match d
                   case LoopTest => 4
                   case EmptyTest => 3
                   case Popping => if waiting > 0 then 2 else 5
                   case Reading(_) => 1
                   case Advancing(_, _) => 0
                   case Processing(_) => 5
                   case Finished => 0)
  }

  ghost predicate Stopped(s: System, e0: Engine, capacity: nat) {
    Inv(s, e0, capacity) && !s.running && (s.consumer.Finished? ==> |s.popped| == |s.accepted|)
  }

  lemma ConsumerProgress(s: System, e0: Engine, capacity: nat)
    requires Stopped(s, e0, capacity) && !s.consumer.Finished?
    ensures var s' := ConsumerNext(s, true, 0, capacity);
            && Stopped(s', e0, capacity) && s'.submitter == s.submitter && s'.accepted == s.accepted
            && |s.popped| <= |s.accepted| && |s'.popped| <= |s'.accepted|
            && Work(s'.consumer, |s'.accepted| - |s'.popped|) < Work(s.consumer, |s.accepted| - |s.popped|)
  {
    hide Wrap, Sequential, Mask, Ring.Pow2, ProcessOne, CallsOk;
    ConsumerKeeps(s, e0, capacity, true, 0);
    EmptyIff(s);
  }

  /** Left alone, the consumer of a stopped engine pops everything accepted and leaves. */
  lemma {:induction false} Drain(s: System, e0: Engine, capacity: nat) returns (cs: seq<Action>)
    requires Stopped(s, e0, capacity) && |s.popped| <= |s.accepted|
    ensures var z := Run(s, cs, capacity);
            && Stopped(z, e0, capacity) && z.consumer.Finished? && z.submitter == s.submitter
            && z.accepted == s.accepted
    decreases Work(s.consumer, |s.accepted| - |s.popped|)
  {
    hide Stopped, ConsumerNext;
    cs := [];
    if !s.consumer.Finished? {
      var c := ConsumerStep(true, 0);
      ConsumerProgress(s, e0, capacity);
      var rest := Drain(ConsumerNext(s, true, 0, capacity), e0, capacity);
      cs := [c] + rest;
      RunCons(s, c, rest, capacity);
    }
  }

  lemma PushProgress(s: System, e0: Engine, capacity: nat)
    requires Stopped(s, e0, capacity) && s.consumer.Finished? && InFlight(s.submitter)
    ensures var s' := SubmitterNext(s);
            && Inv(s', e0, capacity) && !s'.running && s'.consumer.Finished? && s'.calls == s.calls
            && if s.submitter.Storing? then |s'.accepted| == |s.accepted| + 1
               else InFlight(s'.submitter) && s'.accepted == s.accepted && s'.popped == s.popped
                    && PushRank(s'.submitter) < PushRank(s.submitter)
  {
    hide Wrap, Sequential, Mask, Ring.Pow2, ProcessOne, CallsOk;
    SubmitterKeeps(s, e0, capacity);
    FullIff(s);
  }

  function PushRank(u: Submitter): nat {
    match u case LoadTail(_) => 4 case TestFull(_, _) => 3 case Writing(_, _) => 2 case _ => 1
  }

  /** A submission in flight finds room in the emptied ring and completes. */
  lemma {:induction false} FinishPush(s: System, e0: Engine, capacity: nat) returns (cs: seq<Action>)
    requires Stopped(s, e0, capacity) && s.consumer.Finished? && InFlight(s.submitter)
    ensures var z := Run(s, cs, capacity);
            && z.consumer.Finished? && z.calls == s.calls && |z.accepted| == |s.accepted| + 1
    decreases PushRank(s.submitter)
  {
    PushProgress(s, e0, capacity);
    hide Inv, SubmitterNext;
    var t, s' := SubmitterStep, SubmitterNext(s);
    if s.submitter.Storing? {
      cs := [t];
      RunOne(s, t, capacity);
    } else {
      var rest := FinishPush(s', e0, capacity);
      cs := [t] + rest;
      RunCons(s, t, rest, capacity);
    }
  }

  lemma StopStops(s: System, e0: Engine, capacity: nat)
    requires Inv(s, e0, capacity) && s.running
    ensures var s' := Step(s, Stop, capacity);
            Stopped(s', e0, capacity) && |s'.popped| <= |s'.accepted| && s'.submitter == s.submitter
  {
    hide SubmitterNext, ConsumerNext, CallsOk, Wrap;
  }

  /** A submission in flight when the engine is stopped can always be lost: the consumer drains the ring and leaves, and
      then the push completes. */
  lemma InFlightLost(s: System, e0: Engine, capacity: nat) returns (cs: seq<Action>)
    requires Inv(s, e0, capacity) && s.running && InFlight(s.submitter)
    ensures var z := Run(Step(s, Stop, capacity), cs, capacity);
            z.consumer.Finished? && OrdersOf(z.calls) != z.accepted
  {
    StopStops(s, e0, capacity);
    var s1 := Step(s, Stop, capacity);
    hide Step, Inv;
    var drain := Drain(s1, e0, capacity);
    var s2 := Run(s1, drain, capacity);
    var push := FinishPush(s2, e0, capacity);
    RunConcat(s1, drain, push, capacity);
    cs := drain + push;
    assert |s2.calls| == |s2.accepted| by { FinishedCalls(s2, e0, capacity); }
  }

  lemma FinishedCalls(s: System, e0: Engine, capacity: nat)
    requires Stopped(s, e0, capacity) && s.consumer.Finished?
    ensures |s.calls| == |s.accepted|
  {
    hide RingOk, Sequential;
    assert |OrdersOf(s.calls)| == |s.calls|;
  }

  lemma {:induction false} CleanFixed(s: System, cs: seq<Action>, capacity: nat)
    requires !s.running
    ensures var z := Run(s, cs, capacity); !z.running && z.clean == s.clean
    decreases |cs|
  {
    hide ProcessOne, Mask;
    if cs != [] { CleanFixed(Step(s, cs[0], capacity), cs[1..], capacity); }
  }

  /** Whatever happens after the stop, a consumer that has left has processed everything that was accepted. */
  ghost predicate Drains(s: System, capacity: nat) {
    forall cs: seq<Action> :: var z := Run(s, cs, capacity); z.consumer.Finished? ==> OrdersOf(z.calls) == z.accepted
  }

  /** From every reachable running state: a stop is certain to drain the queue if and only if it finds no submission
      past its check. */
  lemma StopDrainsIff(s0: System, actions: seq<Action>, capacity: nat)
    requires Initial(s0) && Run(s0, actions, capacity).running
    ensures var s := Run(s0, actions, capacity);
            Drains(Step(s, Stop, capacity), capacity) <==> !InFlight(s.submitter)
  {
    var s := Run(s0, actions, capacity);
    var s1 := Step(s, Stop, capacity);
    if InFlight(s.submitter) {
      InitialInv(s0, capacity);
      RunKeeps(s0, actions, s0.engine, capacity);
      var cs := InFlightLost(s, s0.engine, capacity);
    } else {
      forall cs: seq<Action>
        ensures var z := Run(s1, cs, capacity); z.consumer.Finished? ==> OrdersOf(z.calls) == z.accepted
      {
        RunConcat(s0, actions, [Stop] + cs, capacity);
        RunCons(s, Stop, cs, capacity);
        CleanFixed(s1, cs, capacity);
        DrainsInOrder(s0, actions + ([Stop] + cs), capacity);
      }
    }
  }

  lemma RunCons(s: System, a: Action, rest: seq<Action>, capacity: nat)
    ensures Run(s, [a] + rest, capacity) == Run(Step(s, a, capacity), rest, capacity)
  {
    hide Step;
    assert ([a] + rest)[1..] == rest;
  }

  /** The shortest instance: one order, submitted to a new engine and caught between its check and its push, is accepted
      after the consumer has left and never processed. */
  lemma InFlightOrderLost(s0: System, o: Order, capacity: nat)
    requires Initial(s0)
    ensures var cs := [Submit(o), SubmitterStep];
            && Run(s0, cs, capacity).submitter == LoadTail(o) && Run(s0, cs, capacity).running
            && !Drains(Step(Run(s0, cs, capacity), Stop, capacity), capacity)
  {
    var cs := [Submit(o), SubmitterStep];
    assert cs == [Submit(o)] + [SubmitterStep];
    RunCons(s0, Submit(o), [SubmitterStep], capacity);
    RunOne(Step(s0, Submit(o), capacity), SubmitterStep, capacity);
    StopDrainsIff(s0, cs, capacity);
  }
}
