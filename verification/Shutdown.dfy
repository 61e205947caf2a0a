/** The destructor's join comes to an end: once the journal is stopped, the writer leaves. */
module Shutdown {
  import opened Journal

  /** A stop clears the running flag, whatever the other threads are doing outside the mutex. */
  lemma StopStops(j: Journal)
    requires j.stopper.SIdle? && j.lock.Free?
    ensures var j' := Step(j, Stop); !j'.running && j'.stopper.SOwes? && j'.healthy == j.healthy
  {}

  /** A step that brings the writer of a stopped journal closer to its end. */
  function Closing(j: Journal): Action {
    if j.lock.FlusherHolds? then FlusherStep
    else
      match j.writer
      case WAsleep => StopNotify
      case WWriting(r, k) => if k < |r| then Write(|r| - k) else WriterStep
      case _ => WriterStep
  }

  function Place(w: Writer): nat {
    match w
    case WWriting(r, k) => if k < |r| then 12 else 11
    case WCount => 10
    case WCheckFlag => 9
    case WNotify => 8
    case WLock => 7
    case WTest => 6
    case WDecide => 5
    case WDoze => 5
    case WPop => 4
    case WAsleep => 4
    case WFail => 3
    case WExit => 2
    case WDone => 0
  }

  function Holding(f: Flusher): nat { if f.FTest? then 2 else if f.FDoze? then 1 else 0 }

  /** Records in the ring, the stopper's notification, the writer's place, and the flusher's hold on the mutex. */
  function Far(j: Journal): nat {
    100 * |j.ring| + 40 * (if j.stopper.SOwes? then 1 else 0) + 3 * Place(j.writer) + Holding(j.flusher)
  }

  lemma FlusherReleases(j: Journal)
    requires Inv(j) && j.lock.FlusherHolds?
    ensures var j' := FlusherNext(j); Far(j') < Far(j) && j'.running == j.running
  {
    hide FileOk, CountsOk, OffersOk, WriterAwake, FlusherAwake, Place;
  }

  lemma WriterMoves(j: Journal)
    requires Inv(j) && !j.running && !j.writer.WDone? && Closing(j) == WriterStep
    ensures var j' := WriterNext(j); Far(j') < Far(j) && !j'.running
  {
    hide CountsOk, OffersOk, FlusherAwake, Concat, Stopped;
  }

  lemma WriterWoken(j: Journal)
    requires Inv(j) && !j.running && j.writer.WAsleep? && !j.lock.FlusherHolds?
    ensures var j' := Step(j, StopNotify); Far(j') < Far(j) && !j'.running
  {
    hide FileOk, CountsOk, OffersOk, FlusherAwake;
  }

  lemma RecordWritten(j: Journal)
    requires !j.running && j.writer.WWriting? && j.writer.k < |j.writer.record|
    ensures var j' := Step(j, Write(|j.writer.record| - j.writer.k)); Far(j') < Far(j) && !j'.running
  {}

  lemma ClosingProgress(j: Journal)
    requires Inv(j) && !j.running && !j.writer.WDone?
    ensures var j' := Step(j, Closing(j)); Inv(j') && Far(j') < Far(j) && !j'.running
  {
    StepKeeps(j, Closing(j));
    hide Inv, FlusherNext, WriterNext, Far;
    if j.lock.FlusherHolds? { FlusherReleases(j); }
    else if j.writer.WAsleep? { WriterWoken(j); }
    else if Closing(j) == WriterStep { WriterMoves(j); }
    else { RecordWritten(j); }
  }

  function Closed(j: Journal, n: nat): Journal
    decreases n
  {
    if n == 0 || j.writer.WDone? then j else Closed(Step(j, Closing(j)), n - 1)
  }

  lemma {:induction false} ClosedEnds(j: Journal, n: nat)
    requires Inv(j) && !j.running && Far(j) <= n
    ensures Closed(j, n).writer.WDone?
    decreases n
  {
    hide Inv, Step, Closing, Far;
    if !j.writer.WDone? {
      ClosingProgress(j);
      ClosedEnds(Step(j, Closing(j)), n - 1);
    }
  }

  /** From every reachable state of a stopped or failed journal, the steps of the threads already running, at most `Far`
      of them, bring the writer to its end. */
  lemma ShutdownEnds(j0: Journal, actions: seq<Action>)
    requires Initial(j0) && !Run(j0, actions).running
    ensures var j := Run(j0, actions); Closed(j, Far(j)).writer.WDone?
  {
    InitialInv(j0);
    RunKeeps(j0, actions);
    ClosedEnds(Run(j0, actions), Far(Run(j0, actions)));
  }
}
