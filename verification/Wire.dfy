/** The journal file: framed, checksummed records after a five-byte header. */
module Wire {
  import opened Types
  import opened Bytes
  import opened Crc32

  const MAX_PAYLOAD: nat := 1024
  const OVERHEAD: nat := 17
  const HEADER: seq<Byte> := [0x4A, 0x4E, 0x4C, 0x32, 0x03]  // "JNL2", version 3

  datatype Record = Record(sequence: nat, command: Byte, payload: seq<Byte>)

  // ----- frames -----------------------------------------------------------------------------------

  /** What the checksum covers. */
  function Body(r: Record): seq<Byte> {
    BE(|r.payload|, 4) + BE(r.sequence, 8) + [r.command] + r.payload
  }

  function Frame(r: Record): seq<Byte> { Body(r) + WordBytes(Crc(Body(r))) }

  datatype ReadResult = CleanEof | Truncated | Corrupt | Got(record: Record, rest: seq<Byte>)

  /** Fewer than four bytes left count as a clean end; a record cut later is truncated. */
  function ReadRecord(s: seq<Byte>): ReadResult {
    if |s| < 4 then CleanEof
    else
      var n := FromBE(s[..4]);
      if n > MAX_PAYLOAD then Corrupt
      else if |s| < n + OVERHEAD then Truncated
      else if FromWordBytes(s[n + 13..n + 17]) != Crc(s[..n + 13]) then Corrupt
      else Got(Record(FromBE(s[4..12]), s[12], s[13..n + 13]), s[n + 17..])
  }

  predicate FrameOk(r: Record) { |r.payload| <= MAX_PAYLOAD && r.sequence < U64 }

  lemma FrameLayout(r: Record, rest: seq<Byte>)
    requires FrameOk(r)
    ensures var s, n := Frame(r) + rest, |r.payload|;
            && |Frame(r)| == n + OVERHEAD && s[..4] == BE(n, 4) && s[4..12] == BE(r.sequence, 8) && s[12] == r.command
            && s[13..n + 13] == r.payload && s[..n + 13] == Body(r) && s[n + 13..n + 17] == WordBytes(Crc(Body(r)))
            && s[n + 17..] == rest
  {
    hide Crc, BE;
  }

  /** Parsing inverts framing, and leaves what follows untouched. */
  lemma ReadFrame(r: Record, rest: seq<Byte>)
    requires FrameOk(r)
    ensures ReadRecord(Frame(r) + rest) == Got(r, rest)
  {
    hide Crc, BE, FromBE, Frame, Body, FromWordBytes, WordBytes, ReadRecord;
    FrameLayout(r, rest);
    U32RoundTrip(|r.payload|);
    U64RoundTrip(r.sequence);
    WordRoundTrip(Crc(Body(r)));
    ReadWhole(Frame(r) + rest, |r.payload|);
  }

  /** A complete record is read if its checksum matches and rejected if not. */
  lemma ReadWhole(s: seq<Byte>, n: nat)
    requires n <= MAX_PAYLOAD && |s| >= n + OVERHEAD && FromBE(s[..4]) == n
    ensures ReadRecord(s) == if FromWordBytes(s[n + 13..n + 17]) == Crc(s[..n + 13])
                             then Got(Record(FromBE(s[4..12]), s[12], s[13..n + 13]), s[n + 17..]) else Corrupt
  {
    hide Crc, FromBE, FromWordBytes;
  }

  /** A frame cut short is never mistaken for a record. */
  lemma ReadCutFrame(r: Record, k: nat)
    requires FrameOk(r) && k < |Frame(r)|
    ensures ReadRecord(Frame(r)[..k]) == if k < 4 then CleanEof else Truncated
  {
    FrameLayout(r, []);
    U32RoundTrip(|r.payload|);
    hide Crc, BE, FromBE, Frame, Body;
    assert Frame(r) + [] == Frame(r);
    if k >= 4 { assert Frame(r)[..k][..4] == Frame(r)[..4]; }
  }

  /** Changing one byte of sequence, command, payload or checksum is always noticed. */
  lemma ReadRejectsChange(r: Record, rest: seq<Byte>, p: nat, b: Byte)
    requires FrameOk(r) && 4 <= p < |Frame(r)| && b != (Frame(r) + rest)[p]
    ensures ReadRecord((Frame(r) + rest)[p := b]) == Corrupt
  {
    var s, n := Frame(r) + rest, |r.payload|;
    FrameLayout(r, rest);
    U32RoundTrip(n);
    WordRoundTrip(Crc(Body(r)));
    hide Crc, BE, FromBE, Frame, Body, WordBytes, FromWordBytes, ReadRecord;
    assert s[p := b][..4] == s[..4];
    ReadWhole(s[p := b], n);
    if p < n + 13 { ChangedBody(s, n, p, b); } else { ChangedChecksum(s, n, p, b); }
  }

  lemma ChangedBody(s: seq<Byte>, n: nat, p: nat, b: Byte)
    requires p < n + 13 && n + OVERHEAD <= |s| && b != s[p] && FromWordBytes(s[n + 13..n + 17]) == Crc(s[..n + 13])
    ensures FromWordBytes(s[p := b][n + 13..n + 17]) != Crc(s[p := b][..n + 13])
  {
    hide Crc, FromWordBytes;
    assert s[p := b][..n + 13] == s[..n + 13][p := b];
    assert s[p := b][n + 13..n + 17] == s[n + 13..n + 17];
    CrcDetects(s[..n + 13], p, b);
  }

  lemma ChangedChecksum(s: seq<Byte>, n: nat, p: nat, b: Byte)
    requires n + 13 <= p < n + OVERHEAD <= |s| && b != s[p] && FromWordBytes(s[n + 13..n + 17]) == Crc(s[..n + 13])
    ensures FromWordBytes(s[p := b][n + 13..n + 17]) != Crc(s[p := b][..n + 13])
  {
    hide Crc, FromWordBytes, WordBytes;
    var t, t' := s[n + 13..n + 17], s[p := b][n + 13..n + 17];
    assert s[p := b][..n + 13] == s[..n + 13];
    assert t'[p - n - 13] == b && t[p - n - 13] == s[p];
    WordRoundTripBack(t);
    WordRoundTripBack(t');
  }

  /** A length beyond the largest payload is refused, whatever follows. */
  lemma ReadTooLong(n: nat, rest: seq<Byte>)
    requires MAX_PAYLOAD < n < U32
    ensures ReadRecord(BE(n, 4) + rest) == Corrupt
  {
    U32RoundTrip(n);
    hide BE, FromBE;
    assert (BE(n, 4) + rest)[..4] == BE(n, 4);
  }

  // ----- events -------------------------------------------------------------------------------------

  function TypeByte(k: OrderType): Byte {
    match k case Market => 0 case Limit => 1 case Ioc => 2 case Fok => 3
  }

  function TypeOf(b: Byte): OrderType {
    if b == 0 then Market else if b == 1 then Limit else if b == 2 then Ioc else Fok
  }

  lemma TypeRoundTrip(k: OrderType)
    ensures TypeOf(TypeByte(k)) == k && FromByte(TypeByte(k)) <= 3 && FromByte(0) <= 1 && FromByte(1) <= 1
  {}

  /** Every field fits its width on the wire. */
  predicate Encodable(e: Event) {
    match e
    case Accepted(time, sequence, id, symbol, trader, _, ticks, quantity, remaining, _, priority) =>
      time < U64 && sequence < U64 && id < U64 && symbol < U32 && trader < U32 && -U63 <= ticks < U63
      && quantity < U32 && remaining < U32 && priority < U64
    case Traded(time, sequence, rid, aid, symbol, trader, quantity, ticks, _) =>
      time < U64 && sequence < U64 && rid < U64 && aid < U64 && symbol < U32 && trader < U32 && quantity < U32
      && -U63 <= ticks < U63
    case Cancelled(time, sequence, id, _, _, _) => time < U64 && sequence < U64 && id < U64
    case Rejected(_, _, _, _, _) => false
  }

  function Payload(e: Event): (p: seq<Byte>)
    requires Encodable(e)
    ensures |p| == if e.Accepted? then 50 else if e.Traded? then 45 else 16
  {
    match e
    case Accepted(time, _, id, symbol, trader, isBuy, ticks, quantity, remaining, kind, priority) =>
      BE(time, 8) + BE(id, 8) + BE(symbol, 4) + BE(trader, 4) + [if isBuy then 1 else 0] + BE(I64(ticks), 8)
      + BE(quantity, 4) + BE(remaining, 4) + [TypeByte(kind)] + BE(priority, 8)
    case Traded(time, _, rid, aid, symbol, trader, quantity, ticks, isBuy) =>
      BE(time, 8) + BE(rid, 8) + BE(aid, 8) + BE(symbol, 4) + BE(trader, 4) + BE(quantity, 4) + BE(I64(ticks), 8)
      + [if isBuy then 1 else 0]
    case Cancelled(time, _, id, _, _, _) => BE(time, 8) + BE(id, 8)
  }

  function CommandByte(e: Event): Byte { if e.Accepted? then 1 else if e.Cancelled? then 2 else 3 }

  function RecordOf(e: Event): (r: Record)
    requires Encodable(e)
    ensures FrameOk(r)
  {
    Record(e.sequence, CommandByte(e), Payload(e))
  }

  function Encode(e: Event): seq<Byte>
    requires Encodable(e)
  {
    Frame(RecordOf(e))
  }

  /** The event a record stands for, as far as recovery reads it; unread fields are zero. */
  function EventOf(r: Record): Option<Event> {
    var p := r.payload;
    if r.command == 1 && |p| == 50 && FromByte(p[24]) <= 1 && FromByte(p[41]) <= 3 then
      Some(Accepted(FromBE(p[0..8]), r.sequence, FromBE(p[8..16]), FromBE(p[16..20]), FromBE(p[20..24]), p[24] == 1,
                    FromI64(FromBE(p[25..33])), FromBE(p[33..37]), FromBE(p[37..41]),
                    TypeOf(p[41]),
                    FromBE(p[42..50])))
    else if r.command == 2 && |p| == 16 then Some(Cancelled(0, r.sequence, FromBE(p[8..16]), 0, 0, 0))
    else if r.command == 3 && |p| == 45 then
      Some(Traded(0, r.sequence, FromBE(p[8..16]), 0, 0, 0, FromBE(p[32..36]), 0, false))
    else None
  }

  /** The part of an event that recovery reads. */
  function Essence(e: Event): Event {
    match e
    case Accepted(_, _, _, _, _, _, _, _, _, _, _) => e
    case Traded(_, sequence, rid, _, _, _, quantity, _, _) => Traded(0, sequence, rid, 0, 0, 0, quantity, 0, false)
    case Cancelled(_, sequence, id, _, _, _) => Cancelled(0, sequence, id, 0, 0, 0)
    case Rejected(_, _, _, _, _) => e
  }

  lemma AcceptedLayout(e: Event)
    requires Encodable(e) && e.Accepted?
    ensures var p := Payload(e);
            && p[0..8] == BE(e.time, 8) && p[8..16] == BE(e.id, 8) && p[16..20] == BE(e.symbol, 4)
            && p[20..24] == BE(e.trader, 4) && p[24] == (if e.isBuy then 1 else 0) && p[25..33] == BE(I64(e.ticks), 8)
            && p[33..37] == BE(e.quantity, 4) && p[37..41] == BE(e.remaining, 4) && p[41] == TypeByte(e.kind)
            && p[42..50] == BE(e.priority, 8)
  {
    hide BE, I64, TypeByte;
  }

  lemma TradedLayout(e: Event)
    requires Encodable(e) && e.Traded?
    ensures Payload(e)[8..16] == BE(e.restingId, 8) && Payload(e)[32..36] == BE(e.quantity, 4)
  {
    hide BE, I64;
  }

  lemma AcceptedRoundTrip(e: Event)
    requires Encodable(e) && e.Accepted?
    ensures EventOf(RecordOf(e)) == Some(e)
  {
    hide BE, FromBE, Payload, I64, FromI64, FromByte, TypeOf, TypeByte;
    AcceptedLayout(e);
    U64RoundTrip(e.time);
    U64RoundTrip(e.id);
    U32RoundTrip(e.symbol);
    U32RoundTrip(e.trader);
    I64RoundTrip(e.ticks);
    U32RoundTrip(e.quantity);
    U32RoundTrip(e.remaining);
    TypeRoundTrip(e.kind);
    U64RoundTrip(e.priority);
  }

  /** Decoding inverts encoding, field by field. */
  lemma EventRoundTrip(e: Event)
    requires Encodable(e)
    ensures EventOf(RecordOf(e)) == Some(Essence(e))
  {
    hide BE, FromBE, I64, FromByte;
    match e
    case Accepted(_, _, _, _, _, _, _, _, _, _, _) =>
      AcceptedRoundTrip(e);
    case Traded(_, _, _, _, _, _, _, _, _) =>
      TradedLayout(e);
      U64RoundTrip(e.restingId);
      U32RoundTrip(e.quantity);
    case Cancelled(_, _, _, _, _, _) =>
      assert Payload(e)[8..16] == BE(e.id, 8);
      U64RoundTrip(e.id);
  }

  // ----- only what the writer could have written is read -----------------------------------------------------

  lemma {:induction false} BEOf(s: seq<Byte>)
    ensures FromBE(s) < Pow256(|s|) && BE(FromBE(s), |s|) == s
  {
    if s != [] {
      var t, b := s[..|s| - 1], s[|s| - 1];
      BEOf(t);
      ByteOfFrom(b);
      LastByte(s);
      hide BE, FromBE, Pow256, ByteOf;
      assert s == t + [b];
    }
  }

  lemma LastByte(s: seq<Byte>)
    requires s != []
    ensures var t, b := s[..|s| - 1], s[|s| - 1];
            && FromBE(s) == 256 * FromBE(t) + FromByte(b)
            && BE(FromBE(s), |s|) == BE(FromBE(t), |t|) + [ByteOf(FromByte(b))] && Pow256(|s|) == 256 * Pow256(|t|)
  {
    var t, b := s[..|s| - 1], s[|s| - 1];
    assert FromBE(s) == 256 * FromBE(t) + FromByte(b);
    assert FromBE(s) / 256 == FromBE(t) && FromBE(s) % 256 == FromByte(b);
  }

  lemma Widths()
    ensures Pow256(4) == U32 && Pow256(8) == U64
  {
    assert Pow256(2) == 0x1_0000;
    assert Pow256(6) == 0x1_0000 * U32;
  }

  lemma SignedBack(n: nat)
    requires n < U64
    ensures -U63 <= FromI64(n) < U63 && I64(FromI64(n)) == n
  {}

  lemma ByteBack(b: Byte, k: nat)
    requires FromByte(b) <= k <= 3
    ensures b == 0 || b == 1 || b == 2 || b == 3
    ensures k <= 1 ==> b == 0 || b == 1
  {
    ByteOfFrom(b);
  }

  /** Any record read as an acceptance is, byte for byte, the record of that acceptance: no size, flag or order type
      that the writer does not use is let through. */
  lemma AcceptedOnly(r: Record)
    requires r.sequence < U64 && EventOf(r).Some? && EventOf(r).value.Accepted?
    ensures Encodable(EventOf(r).value) && RecordOf(EventOf(r).value) == r
  {
    var p, e := r.payload, EventOf(r).value;
    AcceptedEncodable(r);
    hide BE, FromBE, Pow256, FromByte, I64, FromI64, EventOf, Encodable, TypeOf, TypeByte;
    AcceptedFields(p);
    TenFields(p);
  }

  /** The fields as read, and that writing them gives back the bytes they were read from. */
  lemma AcceptedEncodable(r: Record)
    requires r.sequence < U64 && EventOf(r).Some? && EventOf(r).value.Accepted?
    ensures var e, p := EventOf(r).value, r.payload;
            && Encodable(e) && |p| == 50 && r.command == 1 && e.sequence == r.sequence
            && e.time == FromBE(p[0..8]) && e.id == FromBE(p[8..16]) && e.symbol == FromBE(p[16..20])
            && e.trader == FromBE(p[20..24]) && p[24] == (if e.isBuy then 1 else 0) && I64(e.ticks) == FromBE(p[25..33])
            && e.quantity == FromBE(p[33..37]) && e.remaining == FromBE(p[37..41]) && TypeByte(e.kind) == p[41]
            && e.priority == FromBE(p[42..50])
  {
    var p := r.payload;
    hide BE, FromBE, Pow256, I64, FromI64;
    Widths();
    AcceptedFields(p);
    SignedBack(FromBE(p[25..33]));
    ByteBack(p[24], 1);
    ByteBack(p[41], 3);
  }

  lemma TenFields(p: seq<Byte>)
    requires |p| == 50
    ensures p == p[0..8] + p[8..16] + p[16..20] + p[20..24] + [p[24]] + p[25..33] + p[33..37] + p[37..41] + [p[41]]
                 + p[42..50]
  {}

  lemma AcceptedFields(p: seq<Byte>)
    requires |p| == 50
    ensures FromBE(p[0..8]) < Pow256(8) && BE(FromBE(p[0..8]), 8) == p[0..8]
    ensures FromBE(p[8..16]) < Pow256(8) && BE(FromBE(p[8..16]), 8) == p[8..16]
    ensures FromBE(p[16..20]) < Pow256(4) && BE(FromBE(p[16..20]), 4) == p[16..20]
    ensures FromBE(p[20..24]) < Pow256(4) && BE(FromBE(p[20..24]), 4) == p[20..24]
    ensures FromBE(p[25..33]) < Pow256(8) && BE(FromBE(p[25..33]), 8) == p[25..33]
    ensures FromBE(p[33..37]) < Pow256(4) && BE(FromBE(p[33..37]), 4) == p[33..37]
    ensures FromBE(p[37..41]) < Pow256(4) && BE(FromBE(p[37..41]), 4) == p[37..41]
    ensures FromBE(p[42..50]) < Pow256(8) && BE(FromBE(p[42..50]), 8) == p[42..50]
  {
    hide BE, FromBE, Pow256;
    BEOf(p[0..8]);
    BEOf(p[8..16]);
    BEOf(p[16..20]);
    BEOf(p[20..24]);
    BEOf(p[25..33]);
    BEOf(p[33..37]);
    BEOf(p[37..41]);
    BEOf(p[42..50]);
  }

  /** Nothing else is read as an event but a cancellation of sixteen bytes and a trade of forty-five. */
  lemma OthersOnly(r: Record)
    requires EventOf(r).Some? && !EventOf(r).value.Accepted?
    ensures var e, p := EventOf(r).value, r.payload;
            || (e.Cancelled? && r.command == 2 && |p| == 16 && BE(e.id, 8) == p[8..16])
            || (e.Traded? && r.command == 3 && |p| == 45 && BE(e.restingId, 8) == p[8..16]
                && BE(e.quantity, 4) == p[32..36])
  {
    var p := r.payload;
    hide BE, FromBE;
    BEOf(p[8..16]);
    if |p| == 45 { BEOf(p[32..36]); }
  }
}
