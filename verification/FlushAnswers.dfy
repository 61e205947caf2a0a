/** What a flush answers: true when its records are in the file of a healthy journal, false only after a failure or a
    stop. */
module FlushAnswers {
  import opened Types
  import opened Journal

  // ----- the answer of one wait -----------------------------------------------------------------------------

  /** The flusher's test ends its wait exactly when the target is written or the journal has failed or stopped, and the
      answer is then whether the journal is healthy and the target written. */
  lemma WaitAnswers(j: Journal)
    requires j.flusher.FTest?
    ensures var t, f := j.flusher.target, FlusherNext(j).flusher;
            && (f.FClear? <==> j.written >= t || !j.healthy || !j.running) && (f.FClear? || f == FDoze(t))
            && (f.FClear? ==> f.target == t && (f.result <==> j.healthy && j.written >= t))
  {}

  /** A flush that finds nothing to wait for answers at once whether the journal is healthy. */
  lemma StartAnswers(j: Journal)
    requires j.flusher.FStart? && j.lock.Free?
    ensures var j' := FlusherNext(j);
            && (j'.flusher.FIdle? <==> j.written >= j.queued || !j.healthy)
            && (j'.flusher.FIdle? ==> j'.answer == Some(j.healthy))
            && (!j'.flusher.FIdle? ==> j'.flusher == FSetFlag(j.queued))
  {}

  /** What the wait has decided is what the flush returns. */
  lemma ClearAnswers(j: Journal)
    requires j.flusher.FClear?
    ensures FlusherNext(j).flusher.FIdle? && FlusherNext(j).answer == Some(j.flusher.result)
  {}

  // ----- false only for a reason ------------------------------------------------------------------------------

  /** No answer of false, given or about to be given, while the journal is healthy and running. */
  ghost predicate Honest(j: Journal) {
    j.answer == Some(false) || (j.flusher.FClear? && !j.flusher.result) ==> !j.healthy || !j.running
  }

  lemma ProducerHonest(j: Journal)
    requires Honest(j)
    ensures Honest(ProducerNext(j))
  {}

  lemma WriterHonest(j: Journal)
    requires Honest(j)
    ensures Honest(WriterNext(j))
  {}

  lemma FlusherHonest(j: Journal)
    requires Honest(j)
    ensures Honest(FlusherNext(j))
  {}

  lemma StepHonest(j: Journal, a: Action)
    requires Honest(j)
    ensures Honest(Step(j, a))
  {
    hide ProducerNext, WriterNext, FlusherNext;
    match a
    case ProducerStep => ProducerHonest(j);
    case WriterStep => WriterHonest(j);
    case FlusherStep => FlusherHonest(j);
    case _ =>
  }

  lemma {:induction false} RunHonest(j: Journal, actions: seq<Action>)
    requires Honest(j)
    ensures Honest(Run(j, actions))
    decreases |actions|
  {
    hide Step, Honest;
    if actions != [] {
      StepHonest(j, actions[0]);
      RunHonest(Step(j, actions[0]), actions[1..]);
    }
  }

  /** In every interleaving, a flush has returned false only if the journal has failed or been stopped. */
  lemma FalseForAReason(j0: Journal, actions: seq<Action>)
    requires Initial(j0)
    ensures var j := Run(j0, actions); j.answer == Some(false) ==> !j.healthy || !j.running
  {
    RunHonest(j0, actions);
  }

  // ----- true when nothing fails --------------------------------------------------------------------------------

  /** Healthy, running, and nobody about to fail. */
  ghost predicate Well(j: Journal) {
    && Inv(j) && j.healthy && j.running && !j.writer.WFail? && !j.producer.PFail?
    && (j.flusher.FClear? ==> j.flusher.result)
  }

  /** The number of records the flush in progress is about. */
  function Goal(j: Journal): nat {
    match j.flusher
    case FIdle => 0
    case FStart => j.queued
    case FSetFlag(t) => t
    case FLock(t) => t
    case FTest(t) => t
    case FDoze(t) => t
    case FAsleep(t) => t
    case FClear(t, _) => t
  }

  /** One helper's step of a flush that is going well. */
  ghost predicate GoesWell(j: Journal, j': Journal) {
    if j'.flusher.FIdle? then j'.answer == Some(true) && j'.flushed >= Goal(j)
    else
      && j'.healthy && j'.running && !j'.writer.WFail? && !j'.producer.PFail? && Goal(j') == Goal(j)
      && (j'.flusher.FClear? ==> j'.flusher.result)
  }

  lemma FlusherGoesWell(j: Journal)
    requires Well(j) && !j.flusher.FIdle? && Helper(j) == FlusherStep
    ensures GoesWell(j, FlusherNext(j))
  {
    hide Inv, FileOk;
  }

  lemma WriterGoesWell(j: Journal)
    requires Well(j) && !j.flusher.FIdle? && Helper(j) == WriterStep
    ensures GoesWell(j, WriterNext(j))
  {
    hide FileOk, CountsOk, OffersOk, LocksOk, FlusherAwake;
  }

  /** A sleeping writer that the flush waits for is owed the producer's or the stopper's notification. */
  lemma WakeGoesWell(j: Journal)
    requires Well(j) && j.flusher.FAsleep? && j.writer.WAsleep?
    ensures GoesWell(j, Step(j, Helper(j)))
  {
    hide Concat, Stopped, OffersOk;
    if !j.stopper.SOwes? {
      assert j.written == j.done && j.written < j.flusher.target <= j.queued <= |j.pushed|;
      assert j.ring != [] && j.producer.POwes?;
    }
    hide FileOk, CountsOk;
  }

  lemma WriteGoesWell(j: Journal)
    requires Well(j) && j.flusher.FAsleep? && j.writer.WWriting? && j.writer.k < |j.writer.record|
    ensures GoesWell(j, Step(j, Helper(j)))
  {
    hide Inv;
  }

  lemma HelperGoesWell(j: Journal)
    requires Well(j) && !j.flusher.FIdle?
    ensures GoesWell(j, Step(j, Helper(j)))
  {
    hide Well, FlusherNext, WriterNext, ProducerNext, GoesWell;
    if j.flusher.FAsleep? && j.writer.WAsleep? { WakeGoesWell(j); }
    else if Helper(j) == FlusherStep { FlusherGoesWell(j); }
    else if Helper(j) == WriterStep { WriterGoesWell(j); }
    else { WriteGoesWell(j); }
  }

  lemma {:induction false} HelpedSucceeds(j: Journal, n: nat)
    requires Well(j) && !j.flusher.FIdle? && Distance(j) <= n
    ensures var z := Helped(j, n); Inv(z) && z.flusher.FIdle? && z.answer == Some(true) && z.flushed >= Goal(j)
    decreases n
  {
    hide Inv, Step, Helper, Distance, Goal;
    HelperProgress(j);
    HelperGoesWell(j);
    var j' := Step(j, Helper(j));
    if !j'.flusher.FIdle? { HelpedSucceeds(j', n - 1); }
  }

  /** From every reachable healthy, running state in which neither writer nor producer is failing, the steps of the
      threads already running bring a flush in progress to answer true, with all its records in the file. */
  lemma HealthyFlushSucceeds(j0: Journal, actions: seq<Action>)
    requires Initial(j0)
    requires var j := Run(j0, actions);
             && j.healthy && j.running && !j.writer.WFail? && !j.producer.PFail? && !j.flusher.FIdle?
    ensures var j := Run(j0, actions);
            var z := Helped(j, Distance(j));
            && z.flusher.FIdle? && z.answer == Some(true) && z.flushed >= Goal(j)
            && (Waits(j.flusher) ==> z.flushed >= j.flusher.target)
            && Goal(j) <= |z.pushed| && z.base + Concat(z.pushed[..Goal(j)]) <= z.file
  {
    InitialInv(j0);
    RunKeeps(j0, actions);
    RunHonest(j0, actions);
    var j := Run(j0, actions);
    HelpedSucceeds(j, Distance(j));
    Covered(Helped(j, Distance(j)), Goal(j));
    hide Run, Helped, Distance, Inv;
  }

  lemma Covered(j: Journal, n: nat)
    requires Inv(j) && n <= j.flushed
    ensures n <= |j.pushed| && j.base + Concat(j.pushed[..n]) <= j.file
  {
    FileIsPrefix(j);
    CoveredByFile(j, n);
    hide Concat, FileOk, OffersOk;
  }
}
