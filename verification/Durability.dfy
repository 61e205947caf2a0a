/** Engine, journal threads, file and recovery together. */
module Durability {
  import opened Types
  import opened Engine
  import opened Replay
  import opened EngineReplay
  import opened EngineInvariant
  import opened CrashConsistency
  import opened Widths
  import opened Bytes
  import opened Wire
  import opened FileReplay
  import opened Recovery
  import J = Journal

  /** The records handed to the journal for a history of events. */
  function Records(es: seq<Event>): (rs: seq<seq<Byte>>)
    requires forall i :: 0 <= i < |es| ==> Encodable(es[i])
    ensures |rs| == |es|
  {
    if es == [] then [] else [Encode(es[0])] + Records(es[1..])
  }

  lemma {:induction false} RecordsConcat(es: seq<Event>)
    requires AllEncodable(es)
    ensures J.Concat(Records(es)) == EncodeAll(es)
  {
    hide Encode;
    if es != [] {
      RecordsConcat(es[1..]);
      assert Records(es)[1..] == Records(es[1..]);
    }
  }

  lemma {:induction false} RecordsPrefix(es: seq<Event>, n: nat)
    requires AllEncodable(es) && n <= |es|
    ensures Records(es)[..n] == Records(es[..n])
  {
    hide Encode;
    if n > 0 {
      RecordsPrefix(es[1..], n - 1);
      assert es[..n][1..] == es[1..][..n - 1];
      assert Records(es)[..n] == [Encode(es[0])] + Records(es[1..])[..n - 1];
    }
  }

  /** A prefix of a whole journal that ends on a record boundary is the journal of the records it holds. */
  lemma EndsOnRecord(es: seq<Event>, file: seq<Byte>)
    requires AllEncodable(es) && |file| >= 5 && file <= HEADER + EncodeAll(es)
    ensures var kept := es[..WholeRecords(es, |file| - 5)];
            |file| == 5 + |EncodeAll(kept)| ==> file == HEADER + EncodeAll(kept)
  {
    hide EncodeAll, WholeRecords;
    WholeRecordsFit(es, |file| - 5);
    var whole := HEADER + EncodeAll(es);
    assert file == whole[..|file|];
  }

  lemma {:induction false} EncodeConcat(a: seq<Event>, b: seq<Event>)
    requires AllEncodable(a) && AllEncodable(b)
    ensures AllEncodable(a + b) && EncodeAll(a + b) == EncodeAll(a) + EncodeAll(b)
  {
    hide Encode, Encodable;
    if a == [] {
      assert a + b == b;
    } else {
      assert (a + b)[0] == a[0] && (a + b)[1..] == a[1..] + b;
      EncodeConcat(a[1..], b);
    }
  }

  /** What the file of a life that is still running can be, whatever the journal's threads are doing. */
  lemma FileOfLife(past: seq<Event>, es: seq<Event>, j0: J.Journal, actions: seq<J.Action>)
    requires AllEncodable(past) && AllEncodable(es) && AllEncodable(past + es) && J.Initial(j0)
    requires j0.base == HEADER + EncodeAll(past) && J.Run(j0, actions).offered <= Records(es)
    ensures var j := J.Run(j0, actions);
            && j.file <= HEADER + EncodeAll(past + es) && j.flushed <= |es|
            && 5 + |EncodeAll((past + es)[..|past| + j.flushed])| <= |j.file|
            && |EncodeAll(past)| + 5 <= |j.file|
            && (j.flushed == |es| ==> |j.file| == 5 + |EncodeAll(past + es)|)
  {
    hide J.Run, J.Initial, J.Concat, EncodeAll, Records, Encodable;
    var j := J.Run(j0, actions);
    J.FileAlwaysPrefix(j0, actions);
    J.ConcatMonotone(j.offered, Records(es));
    RecordsConcat(es);
    EncodeConcat(past, es);
    assert j.pushed[..j.flushed] == Records(es)[..j.flushed];
    FlushedRecords(past, es, j.flushed);
    if j.flushed == |es| { assert (past + es)[..|past| + |es|] == past + es; }
  }

  lemma FlushedRecords(past: seq<Event>, es: seq<Event>, n: nat)
    requires AllEncodable(past) && AllEncodable(es) && AllEncodable(past + es) && n <= |es|
    ensures |HEADER + EncodeAll(past) + J.Concat(Records(es)[..n])| == 5 + |EncodeAll((past + es)[..|past| + n])|
  {
    hide J.Concat, EncodeAll, Records, Encodable;
    RecordsPrefix(es, n);
    RecordsConcat(es[..n]);
    EncodeConcat(past, es[..n]);
    assert (past + es)[..|past| + n] == past + es[..n];
  }

  /** Crash at any moment, in any life. After any number of crashes and restarts, an engine runs faithful commands that
      fit the declared field widths, while the journal's threads interleave in any way over the file of the earlier
      lives, with any I/O failure, having been offered any part of what the engine published. Whatever bytes are in
      the file at that moment, recovery succeeds and resumes from a prefix of the whole history that includes all of
      the past and everything a flush has confirmed; if a flush confirmed all of it, the recovered book is the live
      book. That prefix is the journal of the chain with this life added, and if the file ends on a record boundary it
      is the file the next life starts from. */
  lemma CrashAtAnyMoment(lives: seq<Life>, cs: seq<Command>, j0: J.Journal, actions: seq<J.Action>, capacity: nat)
    requires Livable(NEW_ENGINE, FRESH, lives, capacity) && LivesFit(lives) && AllFit(cs)
    requires Playable(Current(NEW_ENGINE, FRESH, lives, capacity), cs, capacity) && J.Initial(j0)
    ensures var past := Journaled(NEW_ENGINE, FRESH, lives, capacity);
            var s := Run(Current(NEW_ENGINE, FRESH, lives, capacity), cs, capacity);
            AllEncodable(past) && AllEncodable(s.events) && AllEncodable(past + s.events)
    ensures var past := Journaled(NEW_ENGINE, FRESH, lives, capacity);
            var s, j := Run(Current(NEW_ENGINE, FRESH, lives, capacity), cs, capacity), J.Run(j0, actions);
            j0.base == HEADER + EncodeAll(past) && j.offered <= Records(s.events) ==>
              && |j.file| >= 5
              && var es := past + s.events;
                 var w := WholeRecords(es, |j.file| - 5);
                 var r := ReplayAll(FRESH, es[..w], capacity).at;
                 && RecoverShard(NEW_ENGINE, Some(j.file), capacity) == Recovery(Recovered, Resume(r), r.lastSequence)
                 && |past| + j.flushed <= w
                 && (j.flushed == |s.events| ==> r.book == s.engine.book)
                 && var all := lives + [Life(cs, w - |past|)];
                    && Livable(NEW_ENGINE, FRESH, all, capacity) && LivesFit(all)
                    && Journaled(NEW_ENGINE, FRESH, all, capacity) == es[..w]
                    && (|j.file| == 5 + |EncodeAll(es[..w])| ==> j.file == HEADER + EncodeAll(es[..w]))
  {
    hide RecoverShard, ReplayAll, Run, Playable, J.Run, J.Initial, Resume, Linked, EncodeAll, WholeRecords, Records;
    hide Livable, Journaled, Current, Encodable, AllFit;
    NewLinked(capacity);
    LifeEncodable(lives, cs, capacity);
    var e, past := Current(NEW_ENGINE, FRESH, lives, capacity), Journaled(NEW_ENGINE, FRESH, lives, capacity);
    var s, j := Run(e, cs, capacity), J.Run(j0, actions);
    if j0.base == HEADER + EncodeAll(past) && j.offered <= Records(s.events) {
      var es := past + s.events;
      FileOfLife(past, s.events, j0, actions);
      var whole := HEADER + EncodeAll(es);
      assert j.file == whole[..|j.file|];
      CurrentLinked(NEW_ENGINE, FRESH, lives, capacity);
      CrashRecovers(e, past, cs, |j.file|, capacity);
      WholeAtLeast(es, |past| + j.flushed, |j.file| - 5);
      ChainContinues(lives, cs, past, s.events, WholeRecords(es, |j.file| - 5), capacity);
      EndsOnRecord(es, j.file);
    }
  }

  /** Whatever prefix of this life's records survives, the chain goes on from it. */
  lemma ChainContinues(lives: seq<Life>, cs: seq<Command>, past: seq<Event>, es: seq<Event>, w: nat, capacity: nat)
    requires Livable(NEW_ENGINE, FRESH, lives, capacity) && LivesFit(lives) && AllFit(cs)
    requires Playable(Current(NEW_ENGINE, FRESH, lives, capacity), cs, capacity)
    requires past == Journaled(NEW_ENGINE, FRESH, lives, capacity)
    requires es == Run(Current(NEW_ENGINE, FRESH, lives, capacity), cs, capacity).events && |past| <= w <= |past| + |es|
    ensures var all := lives + [Life(cs, w - |past|)];
            && Livable(NEW_ENGINE, FRESH, all, capacity) && LivesFit(all)
            && Journaled(NEW_ENGINE, FRESH, all, capacity) == (past + es)[..w]
  {
    hide Run, Playable, Livable, Journaled, Current, AllFit;
    OneMoreLife(NEW_ENGINE, FRESH, lives, Life(cs, w - |past|), capacity);
    assert (past + es)[..w] == past + es[..w - |past|];
  }

  lemma LifeEncodable(lives: seq<Life>, cs: seq<Command>, capacity: nat)
    requires Livable(NEW_ENGINE, FRESH, lives, capacity) && LivesFit(lives) && AllFit(cs)
    requires Playable(Current(NEW_ENGINE, FRESH, lives, capacity), cs, capacity)
    ensures var past := Journaled(NEW_ENGINE, FRESH, lives, capacity);
            var s := Run(Current(NEW_ENGINE, FRESH, lives, capacity), cs, capacity);
            AllEncodable(past) && AllEncodable(s.events) && AllEncodable(past + s.events)
  {
    hide ReplayAll, Run, Playable, Linked, Livable, Journaled, Current, Encodable, Sane, AllFit;
    NewLinked(capacity);
    LivesEncodable(NEW_ENGINE, FRESH, lives, capacity);
    CurrentLinked(NEW_ENGINE, FRESH, lives, capacity);
    var e, past := Current(NEW_ENGINE, FRESH, lives, capacity), Journaled(NEW_ENGINE, FRESH, lives, capacity);
    var r := ReplayAll(FRESH, past, capacity).at;
    LinkedSane(e, r, capacity);
    LinkedBooks(e, r, capacity);
    ReplayNarrow(FRESH, past, capacity);
    RunFits(e, cs, capacity);
  }
}
