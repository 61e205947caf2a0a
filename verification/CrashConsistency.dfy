/** Safety over whole runs, over crashes at any record boundary, and over any number of restarts. */
module CrashConsistency {
  import opened Types
  import opened Book
  import opened Engine
  import opened EngineInvariant
  import opened Replay
  import opened MatchReplay
  import opened EngineReplay

  // ----- one run ----------------------------------------------------------------------------------------

  /** Every command is admissible and faithful where it is issued, and the sequence counter does not run out.
      (`WellFilled` only makes `Step` defined; `StepSane` shows that it always holds.) */
  ghost predicate Playable(e: Engine, cs: seq<Command>, capacity: nat)
    decreases |cs|
  {
    cs == [] ||
    (&& WellFilled(e.book) && Admissible(e.book, cs[0]) && StepFaithful(e, cs[0], capacity)
     && e.sequence + |Step(e, cs[0], capacity).events| + 1 < U64
     && Playable(Step(e, cs[0], capacity).engine, cs[1..], capacity))
  }

  ghost function Run(e: Engine, cs: seq<Command>, capacity: nat): Stepped
    requires Playable(e, cs, capacity)
    decreases |cs|
  {
    if cs == [] then Stepped(e, [])
    else
      var s := Step(e, cs[0], capacity);
      var t := Run(s.engine, cs[1..], capacity);
      Stepped(t.engine, s.events + t.events)
  }

  lemma StepLinked(e: Engine, r: Replayer, c: Command, capacity: nat)
    requires Linked(e, r, capacity) && WellFilled(e.book) && Admissible(e.book, c) && StepFaithful(e, c, capacity)
    requires e.sequence + |Step(e, c, capacity).events| + 1 < U64
    ensures var s := Step(e, c, capacity);
            var v := ReplayAll(r, s.events, capacity);
            v.verdict.Done? && Linked(s.engine, v.at, capacity)
  {
    hide Step, StepFaithful, ReplayAll, Live, Apply;
    LinkedSane(e, r, capacity);
    StepReplaysIff(e, r, c, capacity);
    StepSane(e, c, capacity);
    StepShape(e, c, capacity);
    var s := Step(e, c, capacity);
    EventsSound(r, s.events, e.sequence, s.engine.priority, capacity);
  }

  /** Replaying the journal of a whole run rebuilds the live book, order for order, and leaves the counters in step. */
  lemma {:induction false} RunReplays(e: Engine, r: Replayer, cs: seq<Command>, capacity: nat)
    requires Linked(e, r, capacity) && Playable(e, cs, capacity)
    ensures var s := Run(e, cs, capacity);
            var v := ReplayAll(r, s.events, capacity);
            v.verdict.Done? && v.at.book == s.engine.book && Linked(s.engine, v.at, capacity)
    decreases |cs|
  {
    hide Step, StepFaithful, Linked, Apply;
    if cs == [] {
    } else {
      var s := Step(e, cs[0], capacity);
      StepLinked(e, r, cs[0], capacity);
      var r1 := ReplayAll(r, s.events, capacity).at;
      RunReplays(s.engine, r1, cs[1..], capacity);
      ReplayConcat(r, s.events, Run(s.engine, cs[1..], capacity).events, capacity);
    }
    LinkedBooks(Run(e, cs, capacity).engine, ReplayAll(r, Run(e, cs, capacity).events, capacity).at, capacity);
  }

  lemma LinkedBooks(e: Engine, r: Replayer, capacity: nat)
    requires Linked(e, r, capacity)
    ensures e.book == r.book && Sound(r, capacity)
  {}

  // ----- a crash after any number of records ----------------------------------------------------------------

  lemma StepCut(e: Engine, r: Replayer, c: Command, k: nat, capacity: nat)
    requires Linked(e, r, capacity) && WellFilled(e.book) && Admissible(e.book, c) && StepFaithful(e, c, capacity)
    requires e.sequence + |Step(e, c, capacity).events| + 1 < U64 && k <= |Step(e, c, capacity).events|
    ensures var v := ReplayAll(r, Step(e, c, capacity).events[..k], capacity);
            v.verdict.Done? && Sound(v.at, capacity)
  {
    hide Step, StepFaithful, ReplayAll, Apply, Sound;
    var s := Step(e, c, capacity);
    StepLinked(e, r, c, capacity);
    if k == |s.events| {
      assert s.events[..k] == s.events;
      LinkedBooks(s.engine, ReplayAll(r, s.events, capacity).at, capacity);
    } else {
      LinkedSane(e, r, capacity);
      StepShape(e, c, capacity);
      ReplayPrefix(r, s.events, k, capacity);
      LinkedBooks(e, r, capacity);
      EventsSound(r, s.events[..k], e.sequence, s.engine.priority, capacity);
    }
  }

  /** Wherever the journal of a run is cut between records, what is left replays to a state the engine can resume
      from. */
  lemma {:induction false} RunCut(e: Engine, r: Replayer, cs: seq<Command>, k: nat, capacity: nat)
    requires Linked(e, r, capacity) && Playable(e, cs, capacity) && k <= |Run(e, cs, capacity).events|
    ensures var v := ReplayAll(r, Run(e, cs, capacity).events[..k], capacity);
            v.verdict.Done? && Sound(v.at, capacity)
    decreases |cs|
  {
    hide Step, StepFaithful, Linked, Apply, Sound;
    LinkedBooks(e, r, capacity);
    if cs != [] {
      var s := Step(e, cs[0], capacity);
      var t := Run(s.engine, cs[1..], capacity);
      var es := s.events + t.events;
      if k <= |s.events| {
        assert es[..k] == s.events[..k];
        StepCut(e, r, cs[0], k, capacity);
      } else {
        StepLinked(e, r, cs[0], capacity);
        var r1 := ReplayAll(r, s.events, capacity).at;
        RunCut(s.engine, r1, cs[1..], k - |s.events|, capacity);
        assert es[..k] == s.events + t.events[..k - |s.events|];
        ReplayConcat(r, s.events, t.events[..k - |s.events|], capacity);
      }
    }
  }

  // ----- any number of crashes and restarts ------------------------------------------------------------------

  /** A fresh engine over a replayed journal, its counters seeded as recovery seeds them. */
  function Resume(r: Replayer): Engine {
    Engine(r.book, Ceiling(r), r.lastSequence + 1, 1, NoStp, Ready)
  }

  /** An engine's life: the commands it ran, and how many of its records reached the journal. */
  datatype Life = Life(commands: seq<Command>, kept: nat)

  ghost predicate Livable(e: Engine, r: Replayer, lives: seq<Life>, capacity: nat)
    decreases |lives|
  {
    lives == [] ||
    (&& Playable(e, lives[0].commands, capacity) && lives[0].kept <= |Run(e, lives[0].commands, capacity).events|
     && var r1 := ReplayAll(r, Run(e, lives[0].commands, capacity).events[..lives[0].kept], capacity).at;
        Livable(Resume(r1), r1, lives[1..], capacity))
  }

  /** The journal all these lives leave behind. */
  ghost function Journaled(e: Engine, r: Replayer, lives: seq<Life>, capacity: nat): seq<Event>
    requires Livable(e, r, lives, capacity)
    decreases |lives|
  {
    if lives == [] then []
    else
      var es := Run(e, lives[0].commands, capacity).events[..lives[0].kept];
      var r1 := ReplayAll(r, es, capacity).at;
      es + Journaled(Resume(r1), r1, lives[1..], capacity)
  }

  lemma ResumeLinked(r: Replayer, capacity: nat)
    requires Sound(r, capacity)
    ensures Linked(Resume(r), r, capacity)
  {}

  /** Across any number of crashes, each cutting the journal between records, and restarts from what was left,
      the whole journal still replays; its sequence numbers are contiguous and its priorities increase. */
  lemma {:induction false} LivesReplay(e: Engine, r: Replayer, lives: seq<Life>, capacity: nat)
    requires Linked(e, r, capacity) && Livable(e, r, lives, capacity)
    ensures var es := Journaled(e, r, lives, capacity);
            var v := ReplayAll(r, es, capacity);
            v.verdict.Done? && Sound(v.at, capacity) && Contiguous(es) && PrioritiesIncrease(es)
    decreases |lives|
  {
    hide Linked, Apply, Sound, Playable, Resume;
    LinkedBooks(e, r, capacity);
    if lives != [] {
      var life := lives[0];
      var es := Run(e, life.commands, capacity).events[..life.kept];
      RunCut(e, r, life.commands, life.kept, capacity);
      var r1 := ReplayAll(r, es, capacity).at;
      ResumeLinked(r1, capacity);
      LivesReplay(Resume(r1), r1, lives[1..], capacity);
      ReplayConcat(r, es, Journaled(Resume(r1), r1, lives[1..], capacity), capacity);
    }
    ReplayedIsOrdered(r, Journaled(e, r, lives, capacity), capacity);
  }

  // ----- one more life --------------------------------------------------------------------------------------

  /** The engine that runs after all these lives. */
  ghost function Current(e: Engine, r: Replayer, lives: seq<Life>, capacity: nat): Engine
    requires Livable(e, r, lives, capacity)
    decreases |lives|
  {
    if lives == [] then e
    else
      var r1 := ReplayAll(r, Run(e, lives[0].commands, capacity).events[..lives[0].kept], capacity).at;
      Current(Resume(r1), r1, lives[1..], capacity)
  }

  /** It agrees with the journal they left. */
  lemma {:induction false} CurrentLinked(e: Engine, r: Replayer, lives: seq<Life>, capacity: nat)
    requires Linked(e, r, capacity) && Livable(e, r, lives, capacity)
    ensures var v := ReplayAll(r, Journaled(e, r, lives, capacity), capacity);
            v.verdict.Done? && Linked(Current(e, r, lives, capacity), v.at, capacity)
    decreases |lives|
  {
    hide Linked, Apply, Sound, Playable, Resume;
    if lives != [] {
      var es := Run(e, lives[0].commands, capacity).events[..lives[0].kept];
      RunCut(e, r, lives[0].commands, lives[0].kept, capacity);
      var r1 := ReplayAll(r, es, capacity).at;
      ResumeLinked(r1, capacity);
      CurrentLinked(Resume(r1), r1, lives[1..], capacity);
      ReplayConcat(r, es, Journaled(Resume(r1), r1, lives[1..], capacity), capacity);
    }
  }

  /** A life that runs in it continues the chain, and its records continue the journal. */
  lemma {:induction false} OneMoreLife(e: Engine, r: Replayer, lives: seq<Life>, life: Life, capacity: nat)
    requires Livable(e, r, lives, capacity)
    requires Playable(Current(e, r, lives, capacity), life.commands, capacity)
    requires life.kept <= |Run(Current(e, r, lives, capacity), life.commands, capacity).events|
    ensures Livable(e, r, lives + [life], capacity)
    ensures Journaled(e, r, lives + [life], capacity)
            == Journaled(e, r, lives, capacity)
               + Run(Current(e, r, lives, capacity), life.commands, capacity).events[..life.kept]
    decreases |lives|
  {
    hide Playable, Resume, ReplayAll, Run;
    var all := lives + [life];
    if lives == [] {
      assert all[1..] == [] && all[0] == life;
    } else {
      assert all[0] == lives[0] && all[1..] == lives[1..] + [life];
      var es := Run(e, lives[0].commands, capacity).events[..lives[0].kept];
      var r1 := ReplayAll(r, es, capacity).at;
      OneMoreLife(Resume(r1), r1, lives[1..], life, capacity);
    }
  }

  /** A new engine and an empty journal. */
  const NEW_ENGINE: Engine := Engine(EMPTY, 0, 0, 1, NoStp, Ready)

  lemma NewLinked(capacity: nat)
    ensures Linked(NEW_ENGINE, FRESH, capacity) && Linked(Resume(FRESH), FRESH, capacity)
  {}
}
