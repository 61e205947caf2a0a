/** Replaying the bytes of a journal, whole or cut short. */
module FileReplay {
  import opened Types
  import opened Replay
  import opened Bytes
  import opened Crc32
  import opened Wire

  function ProcessRecord(r: Replayer, rec: Record, capacity: nat): Replayed {
    if !SequenceOk(r, rec.sequence) then Replayed(Rejects, r)
    else match EventOf(rec)
      case None => Replayed(Rejects, r)
      case Some(e) => Apply(r, e, capacity)
  }

  /** Outcome of reading a journal to its end; `torn` reports a truncated last record. */
  datatype Scan = Scan(verdict: Verdict, at: Replayer, torn: bool)

  function ReplayBytes(r: Replayer, s: seq<Byte>, capacity: nat): Scan
    decreases |s|
  {
    match ReadRecord(s)
    case CleanEof => Scan(Done, r, false)
    case Truncated => Scan(Done, r, true)
    case Corrupt => Scan(Rejects, r, false)
    case Got(rec, rest) =>
      var p := ProcessRecord(r, rec, capacity);
      if p.verdict.Done? then ReplayBytes(p.at, rest, capacity) else Scan(p.verdict, p.at, false)
  }

  predicate HeaderOk(file: seq<Byte>) { |file| >= 5 && file[..5] == HEADER }

  function ReplayFile(r: Replayer, file: seq<Byte>, capacity: nat): Scan {
    if HeaderOk(file) then ReplayBytes(r, file[5..], capacity) else Scan(Rejects, r, false)
  }

  // ----- whole journals -------------------------------------------------------------------------------

  ghost predicate AllEncodable(es: seq<Event>) { forall e <- es :: Encodable(e) }

  function EncodeAll(es: seq<Event>): seq<Byte>
    requires forall i :: 0 <= i < |es| ==> Encodable(es[i])
  {
    if es == [] then [] else Encode(es[0]) + EncodeAll(es[1..])
  }

  lemma ApplyEssence(r: Replayer, e: Event, capacity: nat)
    ensures Apply(r, Essence(e), capacity) == Apply(r, e, capacity)
  {}

  /** A record read back acts as the event it was written for. */
  lemma ProcessEncoded(r: Replayer, e: Event, capacity: nat)
    requires Encodable(e)
    ensures ProcessRecord(r, RecordOf(e), capacity) == Apply(r, e, capacity)
  {
    hide EventOf, Payload;
    EventRoundTrip(e);
    ApplyEssence(r, e, capacity);
    if !SequenceOk(r, e.sequence) { assert Apply(r, e, capacity) == Replayed(Rejects, r); }
  }

  lemma ReplayEncoded(r: Replayer, e: Event, rest: seq<Byte>, capacity: nat)
    requires Encodable(e)
    ensures var a := Apply(r, e, capacity);
            ReplayBytes(r, Encode(e) + rest, capacity)
            == if a.verdict.Done? then ReplayBytes(a.at, rest, capacity) else Scan(a.verdict, a.at, false)
  {
    ReadFrame(RecordOf(e), rest);
    ProcessEncoded(r, e, capacity);
    hide Apply, ReadRecord, ProcessRecord, Encode, RecordOf;
  }

  // ----- cut journals ---------------------------------------------------------------------------------

  /** How many whole records the first `k` bytes hold. */
  function WholeRecords(es: seq<Event>, k: nat): (w: nat)
    requires forall i :: 0 <= i < |es| ==> Encodable(es[i])
    ensures w <= |es|
  {
    if es == [] || k < |Encode(es[0])| then 0 else 1 + WholeRecords(es[1..], k - |Encode(es[0])|)
  }

  /** `WholeRecords` is the longest prefix of records that fits. */
  lemma {:induction false} WholeRecordsFit(es: seq<Event>, k: nat)
    requires AllEncodable(es)
    ensures var w := WholeRecords(es, k);
            && |EncodeAll(es[..w])| <= k && (w < |es| ==> k < |EncodeAll(es[..w + 1])|)
            && EncodeAll(es[..w]) <= EncodeAll(es)
  {
    hide Encode;
    if es == [] {
    } else if k < |Encode(es[0])| {
      assert es[..1] == [es[0]] && es[..1][1..] == [];
    } else {
      var w := WholeRecords(es[1..], k - |Encode(es[0])|);
      WholeRecordsFit(es[1..], k - |Encode(es[0])|);
      assert es[..w + 1][1..] == es[1..][..w];
      if w + 1 < |es| { assert es[..w + 2][1..] == es[1..][..w + 1]; }
    }
  }

  lemma CutEncoded(r: Replayer, e: Event, k: nat, capacity: nat)
    requires Encodable(e) && k < |Encode(e)|
    ensures ReplayBytes(r, Encode(e)[..k], capacity) == Scan(Done, r, k >= 4)
  {
    ReadCutFrame(RecordOf(e), k);
    hide ReadRecord, RecordOf;
  }

  /** Cut anywhere, a journal replays to exactly the fold of its longest prefix of whole records. */
  lemma {:induction false} CutReplays(r: Replayer, es: seq<Event>, k: nat, capacity: nat)
    requires AllEncodable(es) && k <= |EncodeAll(es)|
    ensures var w := WholeRecords(es, k);
            var v := ReplayAll(r, es[..w], capacity);
            var s := ReplayBytes(r, EncodeAll(es)[..k], capacity);
            && s.verdict == v.verdict && s.at == v.at
            && s.torn == (v.verdict.Done? && k - |EncodeAll(es[..w])| >= 4)
    decreases |es|
  {
    hide Encode, Apply, ReadRecord;
    if es == [] {
      NothingToRead(r, capacity);
    } else {
      var b, n := EncodeAll(es), |Encode(es[0])|;
      if k < n {
        assert b[..k] == Encode(es[0])[..k];
        CutEncoded(r, es[0], k, capacity);
      } else {
        assert b[..k] == Encode(es[0]) + EncodeAll(es[1..])[..k - n];
        ReplayEncoded(r, es[0], EncodeAll(es[1..])[..k - n], capacity);
        var a := Apply(r, es[0], capacity);
        var w := WholeRecords(es[1..], k - n);
        assert es[..w + 1] == [es[0]] + es[1..][..w] && es[..w + 1][1..] == es[1..][..w];
        if a.verdict.Done? { CutReplays(a.at, es[1..], k - n, capacity); }
      }
    }
  }

  lemma NothingToRead(r: Replayer, capacity: nat)
    ensures ReplayBytes(r, [], capacity) == Scan(Done, r, false)
  {}

  lemma WholeIsAll(es: seq<Event>)
    requires AllEncodable(es)
    ensures WholeRecords(es, |EncodeAll(es)|) == |es|
  {}

  /** Replaying the bytes of a journal is replaying its events. */
  lemma FileIsEvents(r: Replayer, es: seq<Event>, capacity: nat)
    requires AllEncodable(es)
    ensures var v := ReplayAll(r, es, capacity);
            ReplayFile(r, HEADER + EncodeAll(es), capacity) == Scan(v.verdict, v.at, false)
  {
    var b := EncodeAll(es);
    CutReplays(r, es, |b|, capacity);
    WholeIsAll(es);
    assert b[..|b|] == b && es[..|es|] == es;
    assert (HEADER + b)[5..] == b && (HEADER + b)[..5] == HEADER;
    hide ReplayBytes, ReplayAll, EncodeAll;
  }

  /** A file cut at byte five or later replays to a prefix of the history. */
  lemma CutFile(r: Replayer, es: seq<Event>, c: nat, capacity: nat)
    requires AllEncodable(es) && 5 <= c <= 5 + |EncodeAll(es)|
    ensures var v := ReplayAll(r, es[..WholeRecords(es, c - 5)], capacity);
            var s := ReplayFile(r, (HEADER + EncodeAll(es))[..c], capacity);
            s.verdict == v.verdict && s.at == v.at
  {
    hide ReplayBytes, ReplayAll, EncodeAll, WholeRecords;
    var b := EncodeAll(es);
    CutReplays(r, es, c - 5, capacity);
    var f := (HEADER + b)[..c];
    assert f[..5] == HEADER && f[5..] == b[..c - 5];
  }

  // ----- appending to a journal that was cut inside a record ----------------------------------------------

  /** Bytes after whole records are read from where those records left the replay. */
  lemma {:induction false} ReplayTail(r: Replayer, es: seq<Event>, tail: seq<Byte>, capacity: nat)
    requires AllEncodable(es)
    ensures var v := ReplayAll(r, es, capacity);
            ReplayBytes(r, EncodeAll(es) + tail, capacity)
            == if v.verdict.Done? then ReplayBytes(v.at, tail, capacity) else Scan(v.verdict, v.at, false)
    decreases |es|
  {
    hide Encode, Apply, ReadRecord;
    if es == [] {
      assert EncodeAll(es) + tail == tail;
    } else {
      assert EncodeAll(es) + tail == Encode(es[0]) + (EncodeAll(es[1..]) + tail);
      ReplayEncoded(r, es[0], EncodeAll(es[1..]) + tail, capacity);
      var x := Apply(r, es[0], capacity);
      if x.verdict.Done? { ReplayTail(x.at, es[1..], tail, capacity); }
    }
  }

  /** The length field of a record whose first `t` bytes survive, for `t` of four or more. */
  lemma TornLength(a: Event, t: nat, rest: seq<Byte>)
    requires Encodable(a) && 4 <= t <= |Encode(a)|
    ensures |Encode(a)| == |Payload(a)| + OVERHEAD
    ensures FromBE((Encode(a)[..t] + rest)[..4]) == |Payload(a)| <= MAX_PAYLOAD
  {
    var r := RecordOf(a);
    FrameLayout(r, []);
    U32RoundTrip(|r.payload|);
    hide Frame, FromBE, BE, Payload;
    assert Frame(r) + [] == Frame(r);
    assert (Encode(a)[..t] + rest)[..4] == Frame(r)[..4];
  }

  lemma TornRead(a: Event, t: nat, rest: seq<Byte>)
    requires Encodable(a) && 4 <= t && t + |rest| < |Encode(a)| && t <= |Encode(a)|
    ensures ReadRecord(Encode(a)[..t] + rest) == Truncated
  {
    TornLength(a, t, rest);
    hide Encode, FromBE, Payload;
  }

  /** Four or more bytes of a torn record, and not enough behind them: whatever is appended is swallowed, whole records
      included, and silently ignored. */
  lemma TornTailSwallows(r: Replayer, es: seq<Event>, a: Event, t: nat, rest: seq<Byte>, capacity: nat)
    requires AllEncodable(es) && Encodable(a) && 4 <= t && t + |rest| < |Encode(a)|
    ensures t <= |Encode(a)|
    ensures var v := ReplayAll(r, es, capacity);
            ReplayBytes(r, EncodeAll(es) + (Encode(a)[..t] + rest), capacity) == Scan(v.verdict, v.at, v.verdict.Done?)
  {
    hide Encode, ReadRecord, ReplayAll;
    TornRead(a, t, rest);
    ReplayTail(r, es, Encode(a)[..t] + rest, capacity);
  }

  /** The record that a torn one becomes once enough bytes are appended, and whether its checksum matches. */
  function Spliced(s: seq<Byte>, n: nat): Record
    requires |s| >= n + OVERHEAD
  {
    Record(FromBE(s[4..12]), s[12], s[13..n + 13])
  }

  predicate Checks(s: seq<Byte>, n: nat)
    requires |s| >= n + OVERHEAD
  {
    FromWordBytes(s[n + 13..n + 17]) == Crc(s[..n + 13])
  }

  /** A record that is there in full is refused if its checksum does not match and processed if it does. */
  lemma ReadStep(r: Replayer, s: seq<Byte>, n: nat, capacity: nat)
    requires n <= MAX_PAYLOAD && |s| >= n + OVERHEAD && FromBE(s[..4]) == n
    ensures var p := ProcessRecord(r, Spliced(s, n), capacity);
            ReplayBytes(r, s, capacity)
            == if !Checks(s, n) then Scan(Rejects, r, false)
               else if p.verdict.Done? then ReplayBytes(p.at, s[n + OVERHEAD..], capacity)
               else Scan(p.verdict, p.at, false)
  {
    hide ReadRecord, ProcessRecord, FromBE, Crc, FromWordBytes;
    ReadWhole(s, n);
  }

  /** Once the torn record's length is made up, the splice of both is read if and only if its checksum word matches;
      otherwise recovery refuses the journal. */
  lemma TornTailSpliced(r: Replayer, es: seq<Event>, a: Event, t: nat, rest: seq<Byte>, capacity: nat)
    requires AllEncodable(es) && Encodable(a) && 4 <= t <= |Encode(a)| <= t + |rest|
    ensures |Encode(a)| == |Payload(a)| + OVERHEAD
    ensures var v, n := ReplayAll(r, es, capacity), |Payload(a)|;
            var s := Encode(a)[..t] + rest;
            ReplayBytes(r, EncodeAll(es) + s, capacity)
            == if !v.verdict.Done? then Scan(v.verdict, v.at, false)
               else if !Checks(s, n) then Scan(Rejects, v.at, false)
               else
                 var p := ProcessRecord(v.at, Spliced(s, n), capacity);
                 if p.verdict.Done? then ReplayBytes(p.at, s[n + OVERHEAD..], capacity)
                 else Scan(p.verdict, p.at, false)
  {
    var s := Encode(a)[..t] + rest;
    TornLength(a, t, rest);
    hide Encode, ReplayBytes, ReplayAll, ProcessRecord, FromBE, Payload, Checks, Spliced;
    ReadStep(ReplayAll(r, es, capacity).at, s, |Payload(a)|, capacity);
    ReplayTail(r, es, s, capacity);
  }

  /** Payloads are short, so every record starts with three zero bytes. */
  lemma LeadingZeros(a: Event)
    requires Encodable(a)
    ensures |Encode(a)| >= OVERHEAD && Encode(a)[..3] == [0, 0, 0]
  {
    hide Frame, Payload, BE, Crc;
    var f := Frame(RecordOf(a));
    FrameLayout(RecordOf(a), []);
    assert f + [] == f;
    ShortLength(|Payload(a)|);
    assert f[..3] == f[..4][..3];
  }

  lemma BEStep(n: nat, width: nat)
    requires width > 0
    ensures BE(n, width) == BE(n / 256, width - 1) + [ByteOf(n % 256)]
  {}

  lemma ZeroByte()
    ensures ByteOf(0) == 0
  {}

  lemma ShortLength(n: nat)
    requires n < 256
    ensures BE(n, 4)[..3] == [0, 0, 0]
  {
    hide BE, ByteOf;
    ZeroByte();
    BEStep(n, 4);
    BEStep(0, 3);
    BEStep(0, 2);
    BEStep(0, 1);
    assert BE(0, 3) == [0, 0, 0];
  }

  lemma ZeroLength()
    ensures FromBE([0, 0, 0, 0]) == 0
  {
    hide BE, FromBE, ByteOf;
    U32RoundTrip(0);
    ShortLength(0);
    BEStep(0, 4);
    ZeroByte();
    var z := BE(0, 4);
    assert z == z[..3] + [z[3]];
    assert z == [0, 0, 0, 0];
  }

  /** A record without payload stands for no event. */
  lemma EmptyRefused(r: Replayer, rec: Record, capacity: nat)
    requires rec.payload == []
    ensures ProcessRecord(r, rec, capacity) == Replayed(Rejects, r)
  {}

  lemma StrayRead(r: Replayer, x: seq<Byte>, t: nat, y: seq<Byte>, capacity: nat)
    requires 1 <= t <= 3 <= |x| && OVERHEAD <= |y| && x[..3] == [0, 0, 0] && y[..3] == [0, 0, 0]
    ensures ReplayBytes(r, x[..t] + y, capacity) == Scan(Rejects, r, false)
  {
    hide ReplayBytes, ProcessRecord, FromBE, Checks;
    var s := x[..t] + y;
    ZeroLength();
    ShiftedZeros(x, y, t);
    ReadStep(r, s, 0, capacity);
    EmptyRefused(r, Spliced(s, 0), capacity);
  }

  lemma ShiftedZeros(x: seq<Byte>, y: seq<Byte>, t: nat)
    requires 1 <= t <= 3 <= |x| && 3 <= |y| && x[..3] == [0, 0, 0] && y[..3] == [0, 0, 0]
    ensures (x[..t] + y)[..4] == [0, 0, 0, 0]
  {
    assert forall i :: 0 <= i < 3 ==> x[i] == x[..3][i] && y[i] == y[..3][i];
  }

  /** One to three stray bytes, which recovery had taken for a clean end: the next whole record appended behind them
      makes every later recovery refuse the journal. */
  lemma StrayBytesReject(r: Replayer, es: seq<Event>, a: Event, t: nat, b: Event, more: seq<Byte>, capacity: nat)
    requires AllEncodable(es) && Encodable(a) && Encodable(b) && 1 <= t <= 3
    ensures |Encode(a)| >= 3
    ensures var v := ReplayAll(r, es, capacity);
            var s := ReplayBytes(r, EncodeAll(es) + (Encode(a)[..t] + (Encode(b) + more)), capacity);
            s == Scan(if v.verdict.Done? then Rejects else v.verdict, v.at, false)
  {
    hide Encode, ReadRecord, ReplayAll, ReplayBytes;
    LeadingZeros(a);
    LeadingZeros(b);
    assert (Encode(b) + more)[..3] == Encode(b)[..3];
    StrayRead(ReplayAll(r, es, capacity).at, Encode(a), t, Encode(b) + more, capacity);
    ReplayTail(r, es, Encode(a)[..t] + (Encode(b) + more), capacity);
  }

  /** Replay of `es`, `t` bytes of a torn record and then whole records `bs` gives what it should. */
  predicate Honoured(r: Replayer, es: seq<Event>, a: Event, t: nat, bs: seq<Event>, capacity: nat)
    requires Encodable(a) && t <= |Encode(a)|
    requires (forall i :: 0 <= i < |es| ==> Encodable(es[i])) && (forall i :: 0 <= i < |bs| ==> Encodable(bs[i]))
  {
    ReplayBytes(r, EncodeAll(es) + (Encode(a)[..t] + EncodeAll(bs)), capacity)
    == Scan(Done, ReplayAll(r, es + bs, capacity).at, false)
  }

  /** The bytes appended complete the torn record, and the splice happens to carry a matching checksum word. */
  predicate Collides(a: Event, t: nat, bs: seq<Event>)
    requires Encodable(a) && t <= |Encode(a)| && forall i :: 0 <= i < |bs| ==> Encodable(bs[i])
  {
    && 4 <= t && |Payload(a)| + OVERHEAD <= t + |EncodeAll(bs)|
    && Checks(Encode(a)[..t] + EncodeAll(bs), |Payload(a)|)
  }

  /** Appending to a journal continues it if and only if the journal ends on a record boundary, unless a torn tail and
      what is appended collide in their checksum. */
  lemma AppendHonoured(r: Replayer, es: seq<Event>, a: Event, t: nat, bs: seq<Event>, capacity: nat)
    requires AllEncodable(es) && Encodable(a) && AllEncodable(bs) && t < |Encode(a)|
    requires bs != [] && ReplayAll(r, es + bs, capacity).verdict.Done?
    ensures t == 0 ==> Honoured(r, es, a, t, bs, capacity)
    ensures Honoured(r, es, a, t, bs, capacity) ==> t == 0 || Collides(a, t, bs)
  {
    hide Encode, EncodeAll, ReplayBytes, ReplayAll, Payload, Checks;
    var rest := EncodeAll(bs);
    ReplayConcat(r, es, bs, capacity);
    if t == 0 {
      assert Encode(a)[..0] + rest == rest;
      ReplayTail(r, es, rest, capacity);
      WholeBytes(ReplayAll(r, es, capacity).at, bs, capacity);
    } else if t <= 3 {
      EncodeAllCons(bs);
      StrayBytesReject(r, es, a, t, bs[0], EncodeAll(bs[1..]), capacity);
    } else if t + |rest| < |Encode(a)| {
      TornTailSwallows(r, es, a, t, rest, capacity);
    } else {
      TornTailSpliced(r, es, a, t, rest, capacity);
    }
  }

  lemma EncodeAllCons(bs: seq<Event>)
    requires AllEncodable(bs) && bs != []
    ensures EncodeAll(bs) == Encode(bs[0]) + EncodeAll(bs[1..])
  {}

  lemma WholeBytes(r: Replayer, bs: seq<Event>, capacity: nat)
    requires AllEncodable(bs)
    ensures var v := ReplayAll(r, bs, capacity);
            ReplayBytes(r, EncodeAll(bs), capacity) == Scan(v.verdict, v.at, false)
  {
    hide EncodeAll, ReplayAll;
    ReplayTail(r, bs, [], capacity);
    assert EncodeAll(bs) + [] == EncodeAll(bs);
    NothingToRead(ReplayAll(r, bs, capacity).at, capacity);
  }
}
