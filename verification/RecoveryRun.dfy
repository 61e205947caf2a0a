/** Recovery as the program runs it: a loop over the file that updates its counters and the engine. */
module RecoveryRun {
  import opened Types
  import opened PriorityList
  import opened Book
  import Flat = Book
  import opened Engine
  import opened Replay
  import opened Bytes
  import opened Crc32
  import opened Wire
  import opened FileReplay
  import Rec = Recovery
  import opened LevelStore
  import opened MatchingEngine

  /** Big-endian accumulation, one byte at a time. */
  method ReadBE(s: seq<Byte>) returns (n: nat)
    ensures n == FromBE(s)
  {
    n := 0;
    for i := 0 to |s|
      invariant n == FromBE(s[..i])
    {
      assert s[..i + 1][..i] == s[..i];
      n := n * 256 + FromByte(s[i]);
    }
    assert s[..|s|] == s;
  }

  method ReadNext(s: seq<Byte>) returns (r: ReadResult)
    ensures r == Wire.ReadRecord(s)
  {
    if |s| < 4 {
      return CleanEof;
    }
    var n := ReadBE(s[..4]);
    if n > MAX_PAYLOAD {
      return Corrupt;
    }
    if |s| < n + OVERHEAD {
      return Truncated;
    }
    var crc := Checksum(s[..n + 13]);
    if FromWordBytes(s[n + 13..n + 17]) != crc {
      return Corrupt;
    }
    var sequence := ReadBE(s[4..12]);
    return Got(Record(sequence, s[12], s[13..n + 13]), s[n + 17..]);
  }

  class Recovery {
    var records: nat
    var newOrders: nat
    var first: bool
    var lastSequence: nat
    var maxPriority: nat
    var torn: bool

    constructor () {
      records, newOrders, first, lastSequence, maxPriority, torn := 0, 0, true, 0, 0, false;
    }

    ghost function At(b: Book): Replayer
      reads this
    {
      Replayer(b, records, newOrders, first, lastSequence, maxPriority)
    }

    method ValidateSequence(s: nat) returns (ok: bool)
      modifies this
      ensures forall b :: ok <==> SequenceOk(old(At(b)), s)
      ensures records == old(records) && newOrders == old(newOrders) && maxPriority == old(maxPriority)
              && torn == old(torn)
      ensures ok ==> !first && lastSequence == s
    {
      if first {
        first := false;
        lastSequence := s;
        return true;
      }
      if lastSequence == U64 - 1 || s != lastSequence + 1 {
        return false;
      }
      lastSequence := s;
      return true;
    }

    method ValidatePriority(p: nat) returns (ok: bool)
      modifies this
      ensures forall b :: ok <==> PriorityOk(old(At(b)), p)
      ensures records == old(records) && newOrders == old(newOrders) && first == old(first)
              && lastSequence == old(lastSequence)
      ensures maxPriority == (if ok then p else old(maxPriority)) && torn == old(torn)
    {
      if newOrders > 0 && p <= maxPriority {
        return false;
      }
      maxPriority := p;
      return true;
    }

    /** A new order goes through every field check, the priority check and the order constructor. */
    method ReplayAccepted(engine: MatchingEngine, e: Event) returns (v: Verdict)
      requires engine.Valid() && this !in engine.Repr() && e.Accepted?
      requires !first && lastSequence == e.sequence
      modifies this, engine.Repr()
      ensures engine.Valid() && unchanged(engine) && torn == old(torn)
      ensures engine.book.nextTradeId == old(engine.book.nextTradeId) && engine.book.policy == old(engine.book.policy)
      ensures var b, c := old(engine.book.View()), engine.book.Capacity();
              var ok := e.quantity > 0 && 0 < e.remaining <= e.quantity && e.kind.Limit?
                        && PriorityOk(old(At(b)), e.priority);
              v == if !ok then Rejects
                   else if e.id == 0 || e.trader == 0 || e.ticks <= 0 then Threw
                   else if b.Contains(e.id) || !CanRest(b, Restored(e), c) then Rejects else Done
      ensures v.Done? ==>
              At(engine.book.View()) == old(At(Flat.AddOrder(engine.book.View(), Restored(e), engine.book.Capacity())))
                          .(records := old(records) + 1, newOrders := old(newOrders) + 1, maxPriority := e.priority)
      ensures !v.Done? ==> engine.book.View() == old(engine.book.View())
    {
      hide Kept, Slots, Orders, InStore, Insert;
      if e.quantity == 0 || e.remaining == 0 || e.remaining > e.quantity || !e.kind.Limit? {
        return Rejects;
      }
      var ok := ValidatePriority(e.priority);
      if !ok {
        return Rejects;
      }
      if e.id == 0 || e.trader == 0 || e.ticks <= 0 {
        return Threw;
      }
      ok := engine.RestoreOrder(Restored(e).(remaining := e.quantity), e.remaining);
      if !ok {
        return Rejects;
      }
      newOrders := newOrders + 1;
      records := records + 1;
      return Done;
    }

    /** One record: sequence check, decoding, then the edit it stands for. */
    method Process(engine: MatchingEngine, rec: Record) returns (v: Verdict)
      requires engine.Valid() && this !in engine.Repr()
      modifies this, engine.Repr()
      ensures engine.Valid() && unchanged(engine) && torn == old(torn)
      ensures engine.book.nextTradeId == old(engine.book.nextTradeId) && engine.book.policy == old(engine.book.policy)
      ensures var p := ProcessRecord(old(At(engine.book.View())), rec, engine.book.Capacity());
              && v == p.verdict && engine.book.View() == p.at.book && (v.Done? ==> At(engine.book.View()) == p.at)
    {
      hide Kept, Slots, Orders, InStore, EventOf, Insert, Position, FillAt;
      var ok := ValidateSequence(rec.sequence);
      if !ok {
        return Rejects;
      }
      var decoded := EventOf(rec);
      if decoded.None? {
        return Rejects;
      }
      var e := decoded.value;
      EventOfSequence(rec);
      match e
      case Accepted(_, _, _, _, _, _, _, _, _, _, _) =>
        v := ReplayAccepted(engine, e);
      case Cancelled(_, _, id, _, _, _) =>
        ok := engine.book.CancelOrder(id);
        if !ok {
          return Rejects;
        }
        records := records + 1;
        return Done;
      case Traded(_, _, id, _, _, _, quantity, _, _) =>
        ok := engine.book.ApplyFill(id, quantity);
        if !ok {
          return Rejects;
        }
        records := records + 1;
        return Done;
      case Rejected(_, _, _, _, _) =>
        return Rejects;
    }

    lemma EventOfSequence(rec: Record)
      requires EventOf(rec).Some?
      ensures EventOf(rec).value.sequence == rec.sequence
    {}

    /** Reads record after record; the engine's book and these counters advance together. */
    method Scan(engine: MatchingEngine, bytes: seq<Byte>) returns (v: Verdict)
      requires engine.Valid() && this !in engine.Repr() && !torn
      modifies this, engine.Repr()
      ensures engine.Valid() && unchanged(engine)
      ensures engine.book.nextTradeId == old(engine.book.nextTradeId) && engine.book.policy == old(engine.book.policy)
      ensures var s := ReplayBytes(old(At(engine.book.View())), bytes, engine.book.Capacity());
              && v == s.verdict && engine.book.View() == s.at.book
              && (v.Done? ==> At(engine.book.View()) == s.at && torn == s.torn)
    {
      hide Kept, Slots, Orders, InStore, ProcessRecord, Wire.ReadRecord;
      var rest := bytes;
      ghost var goal := ReplayBytes(At(engine.book.View()), bytes, engine.book.Capacity());
      while true
        invariant engine.Valid() && unchanged(engine)
        invariant engine.book.nextTradeId == old(engine.book.nextTradeId)
                  && engine.book.policy == old(engine.book.policy)
        invariant !torn && ReplayBytes(At(engine.book.View()), rest, engine.book.Capacity()) == goal
        decreases |rest|
      {
        var r := ReadNext(rest);
        match r
        case CleanEof =>
          return Done;
        case Truncated =>
          torn := true;
          return Done;
        case Corrupt =>
          return Rejects;
        case Got(rec, tail) =>
          Shorter(rest);
          v := Process(engine, rec);
          if !v.Done? {
            return v;
          }
          rest := tail;
      }
    }

    lemma Shorter(s: seq<Byte>)
      requires Wire.ReadRecord(s).Got?
      ensures |Wire.ReadRecord(s).rest| < |s|
    {
      hide Crc, FromBE;
    }

    /** The scan is over: seed the priority counter and open the engine, or halt it. */
    method Finish(engine: MatchingEngine, v: Verdict, ghost s: FileReplay.Scan) returns (outcome: Rec.Outcome)
      requires engine.Valid() && v == s.verdict && engine.book.View() == s.at.book
               && (v.Done? ==> At(s.at.book) == s.at)
      modifies engine
      ensures engine.Valid() && engine.published == old(engine.published)
      ensures var r := Rec.Finish(old(engine.Abs()), s);
              && outcome == r.outcome && engine.Abs() == r.engine
              && (outcome.Recovered? ==> lastSequence == r.lastSequence)
    {
      hide Kept, Slots, Orders, InStore;
      if v.Threw? {
        return Rec.Escaped;
      }
      if v.Rejects? || (newOrders > 0 && maxPriority == U64 - 1) {
        engine.Halt();
        return Rec.Failed;
      }
      var ok := engine.SeedPriority(if newOrders == 0 then 0 else maxPriority + 1);
      if !ok {
        engine.Halt();
        return Rec.Failed;
      }
      ok := engine.MarkReady();
      if !ok {
        engine.Halt();
        return Rec.Failed;
      }
      return Rec.Recovered;
    }

    /** Replay, then open the engine; any failure halts it. */
    method Replay(file: Option<seq<Byte>>, engine: MatchingEngine) returns (outcome: Rec.Outcome)
      requires engine.Valid() && this !in engine.Repr()
      modifies this, engine.Repr()
      ensures engine.Valid() && engine.published == old(engine.published)
      ensures var r := Rec.Recover(old(engine.Abs()), file, engine.book.Capacity());
              && outcome == r.outcome && engine.Abs() == r.engine
              && (outcome.Recovered? ==> lastSequence == r.lastSequence)
    {
      hide Kept, Slots, Orders, InStore, ReplayBytes, Rec.Finish;
      records, newOrders, first, lastSequence, maxPriority, torn := 0, 0, true, 0, 0, false;
      if file.None? {
        engine.Halt();
        return Rec.Failed;
      }
      engine.BeginRecovery();
      ghost var s := ReplayFile(At(engine.book.View()), file.value, engine.book.Capacity());
      var v := Rejects;
      if HeaderOk(file.value) {
        v := Scan(engine, file.value[5..]);
      }
      outcome := Finish(engine, v, s);
    }
  }

  /** Recovers a shard's engine and seeds its event counter behind the last record. */
  method RecoverShard(file: Option<seq<Byte>>, engine: MatchingEngine) returns (ok: bool)
    requires engine.Valid()
    modifies engine.Repr()
    ensures engine.Valid() && engine.published == old(engine.published)
    ensures var r := Rec.RecoverShard(old(engine.Abs()), file, engine.book.Capacity());
            engine.Abs() == r.engine && (ok <==> r.outcome.Recovered?)
  {
    hide Kept, Slots, Orders, InStore, Rec.Recover;
    var recovery := new Recovery();
    var outcome := recovery.Replay(file, engine);
    if !outcome.Recovered? {
      return false;
    }
    engine.sequence := (recovery.lastSequence + 1) % U64;
    return true;
  }
}
