/** Recovery of an engine from a journal file, and what survives a crash end to end. */
module Recovery {
  import opened Types
  import opened Book
  import opened Engine
  import opened EngineInvariant
  import opened Replay
  import opened MatchReplay
  import opened EngineReplay
  import opened CrashConsistency
  import opened Widths
  import opened Bytes
  import opened Wire
  import opened FileReplay

  /** `Escaped`: an exception left `replay` before the engine could be halted. */
  datatype Outcome = Recovered | Failed | Escaped

  datatype Recovery = Recovery(outcome: Outcome, engine: Engine, lastSequence: nat)

  function BeginRecovery(e: Engine): Engine { if e.state.Ready? then e.(state := Recovering) else e }

  /** `None` is a file that cannot be opened. */
  function Recover(e: Engine, file: Option<seq<Byte>>, capacity: nat): Recovery {
    if file.None? then Recovery(Failed, e.(state := Halted), 0)
    else
      var s := ReplayFile(FRESH.(book := e.book), file.value, capacity);
      Finish(BeginRecovery(e).(book := s.at.book), s)
  }

  /** After the scan: seed the priority counter and open the engine, or halt it. */
  function Finish(e: Engine, s: Scan): Recovery {
    if s.verdict.Threw? then Recovery(Escaped, e, s.at.lastSequence)
    else if s.verdict.Rejects? || (s.at.newOrders > 0 && s.at.maxPriority == U64 - 1) || Ceiling(s.at) < e.priority then
      Recovery(Failed, e.(state := Halted), s.at.lastSequence)
    else if !e.state.Recovering? then
      Recovery(Failed, e.(priority := Ceiling(s.at), state := Halted), s.at.lastSequence)
    else Recovery(Recovered, e.(priority := Ceiling(s.at), state := Ready), s.at.lastSequence)
  }

  /** Recovering a shard also seeds the event counter behind the last record; the counter is 64-bit and wraps. */
  function RecoverShard(e: Engine, file: Option<seq<Byte>>, capacity: nat): Recovery {
    var r := Recover(e, file, capacity);
    if r.outcome.Recovered? then r.(engine := r.engine.(sequence := (r.lastSequence + 1) % U64)) else r
  }

  /** A fresh engine recovers any soundly replayed prefix: READY, with the counters `Resume` expects. */
  lemma RecoverSound(file: seq<Byte>, capacity: nat)
    requires var s := ReplayFile(FRESH, file, capacity); s.verdict.Done? && Sound(s.at, capacity)
    ensures var r := ReplayFile(FRESH, file, capacity).at;
            RecoverShard(NEW_ENGINE, Some(file), capacity) == Recovery(Recovered, Resume(r), r.lastSequence)
  {
    hide ReplayFile, Live, PrioritiesBelow;
    assert FRESH.(book := EMPTY) == FRESH;
  }

  /** The journal is there, has its header, replays to its end, and leaves a priority to hand out that is not behind the
      engine's own. */
  predicate Usable(e: Engine, file: Option<seq<Byte>>, capacity: nat) {
    && file.Some? && |file.value| >= 5 && file.value[..5] == HEADER
    && var s := ReplayBytes(FRESH.(book := e.book), file.value[5..], capacity);
       && s.verdict.Done? && (s.at.newOrders == 0 || s.at.maxPriority + 1 != U64)
       && e.priority <= (if s.at.newOrders == 0 then 0 else s.at.maxPriority + 1)
  }

  /** For every file and engine: recovery ends READY exactly when the journal is usable and the engine was not halted,
      otherwise HALTED, taking no further command, unless the exception escapes. */
  lemma RecoverDecides(e: Engine, file: Option<seq<Byte>>, capacity: nat)
    ensures var v := Recover(e, file, capacity);
            && (v.outcome.Recovered? <==> Usable(e, file, capacity) && !e.state.Halted?)
            && (v.outcome.Recovered? ==> v.engine.state == Ready) && (v.outcome.Failed? ==> v.engine.state == Halted)
            && (v.outcome.Failed? && WellFilled(v.engine.book) ==>
                  forall c: Command :: !c.SetPolicy? ==> Step(v.engine, c, capacity) == Stepped(v.engine, []))
  {
    hide ReplayBytes;
    var v := Recover(e, file, capacity);
    if v.outcome.Failed? && WellFilled(v.engine.book) {
      forall c: Command | !c.SetPolicy? ensures Step(v.engine, c, capacity) == Stepped(v.engine, []) {
        HaltedStays(v.engine, c, capacity);
      }
    }
  }

  lemma HaltedStays(e: Engine, c: Command, capacity: nat)
    requires e.state.Halted? && !c.SetPolicy? && WellFilled(e.book)
    ensures Step(e, c, capacity) == Stepped(e, [])
  {}

  /** Any journal that replays, whoever wrote it, cut at any byte after the header: recovery never fails on the cut,
      and the engine is READY with the fold of the surviving whole records. The only refusal is a journal that has
      handed out the last priority. */
  lemma CutRecovers(es: seq<Event>, cut: nat, capacity: nat)
    requires AllEncodable(es) && ReplayAll(FRESH, es, capacity).verdict.Done?
    requires 5 <= cut <= 5 + |EncodeAll(es)|
    ensures var r := ReplayAll(FRESH, es[..WholeRecords(es, cut - 5)], capacity).at;
            var v := Recover(NEW_ENGINE, Some((HEADER + EncodeAll(es))[..cut]), capacity);
            if r.newOrders > 0 && r.maxPriority == U64 - 1 then v.outcome.Failed? && v.engine.state.Halted?
            else v == Recovery(Recovered, NEW_ENGINE.(book := r.book, priority := Ceiling(r)), r.lastSequence)
  {
    hide ReplayAll, ReplayFile, EncodeAll, WholeRecords;
    ReplayPrefix(FRESH, es, WholeRecords(es, cut - 5), capacity);
    CutFile(FRESH, es, cut, capacity);
    assert FRESH.(book := EMPTY) == FRESH;
  }

  /** Crash consistency, end to end. An engine that agrees with the journal of its past runs any faithful commands; the
      journal file is cut at any byte it wrote. Recovery succeeds, and the engine it leaves READY has exactly the book
      obtained by replaying the whole records that survive; if nothing was cut, that is the book of the engine that
      crashed. */
  lemma CrashRecovers(e: Engine, past: seq<Event>, cs: seq<Command>, cut: nat, capacity: nat)
    requires var v := ReplayAll(FRESH, past, capacity); v.verdict.Done? && Linked(e, v.at, capacity)
    requires Playable(e, cs, capacity) && AllEncodable(past + Run(e, cs, capacity).events)
    requires AllEncodable(past) && 5 + |EncodeAll(past)| <= cut <= 5 + |EncodeAll(past + Run(e, cs, capacity).events)|
    ensures var s := Run(e, cs, capacity);
            var es := past + s.events;
            var w := WholeRecords(es, cut - 5);
            var r := ReplayAll(FRESH, es[..w], capacity).at;
            && w >= |past|
            && RecoverShard(NEW_ENGINE, Some((HEADER + EncodeAll(es))[..cut]), capacity)
               == Recovery(Recovered, Resume(r), r.lastSequence)
            && Linked(Resume(r), r, capacity)
            && (cut == 5 + |EncodeAll(es)| ==> w == |es| && r.book == s.engine.book)
  {
    hide RecoverShard, ReplayFile, ReplayAll, Run, Playable, Resume, Linked, Sound, EncodeAll, WholeRecords;
    var s := Run(e, cs, capacity);
    var es := past + s.events;
    var w := WholeRecords(es, cut - 5);
    assert es[..|past|] == past;
    WholeAtLeast(es, |past|, cut - 5);
    var k := w - |past|;
    assert es[..w] == past + s.events[..k];
    var r0 := ReplayAll(FRESH, past, capacity).at;
    RunCut(e, r0, cs, k, capacity);
    ReplayConcat(FRESH, past, s.events[..k], capacity);
    CutFile(FRESH, es, cut, capacity);
    RecoverSound((HEADER + EncodeAll(es))[..cut], capacity);
    ResumeLinked(ReplayAll(FRESH, es[..w], capacity).at, capacity);
    if cut == 5 + |EncodeAll(es)| {
      WholeIsAll(es);
      assert s.events[..k] == s.events;
      RunReplays(e, r0, cs, capacity);
    }
  }

  lemma {:induction false} WholeAtLeast(es: seq<Event>, n: nat, k: nat)
    requires AllEncodable(es) && n <= |es| && |EncodeAll(es[..n])| <= k
    ensures WholeRecords(es, k) >= n
  {
    hide Encode;
    if n > 0 {
      assert es[..n][1..] == es[1..][..n - 1];
      WholeAtLeast(es[1..], n - 1, k - |Encode(es[0])|);
    }
  }

  /** After any number of crashes and restarts whose commands fit the declared field widths, the file all lives leave
      behind recovers. */
  lemma LivesRecover(lives: seq<Life>, capacity: nat)
    requires Livable(NEW_ENGINE, FRESH, lives, capacity) && LivesFit(lives)
    ensures AllEncodable(Journaled(NEW_ENGINE, FRESH, lives, capacity))
    ensures var es := Journaled(NEW_ENGINE, FRESH, lives, capacity);
            var r := ReplayAll(FRESH, es, capacity).at;
            RecoverShard(NEW_ENGINE, Some(HEADER + EncodeAll(es)), capacity)
            == Recovery(Recovered, Resume(r), r.lastSequence)
  {
    hide RecoverShard, ReplayFile, ReplayAll, Livable, Journaled, Linked, Sound, EncodeAll;
    NewLinked(capacity);
    LivesEncodable(NEW_ENGINE, FRESH, lives, capacity);
    var es := Journaled(NEW_ENGINE, FRESH, lives, capacity);
    LivesReplay(NEW_ENGINE, FRESH, lives, capacity);
    FileIsEvents(FRESH, es, capacity);
    RecoverSound(HEADER + EncodeAll(es), capacity);
  }
}
