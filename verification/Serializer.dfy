/** Serialisation as the journal does it: fields written one after another into a fixed buffer. */
module Serializer {
  import opened Types
  import opened Bytes
  import opened Arithmetic
  import opened Crc32
  import opened Wire

  const BUFFER: nat := 1088

  lemma DivDiv(v: nat, p: nat)
    requires p > 0
    ensures v / 256 / p == v / (256 * p)
  {
    var q, r := v / 256 / p, v / 256 % p;
    assert v / 256 == p * q + r;
    assert v == 256 * p * q + (256 * r + v % 256);
    assert 0 <= 256 * r + v % 256 < 256 * p;
    DivModUnique(v, 256 * p, q, 256 * r + v % 256);
  }

  /** The `i`-th byte is the value shifted right by the bytes that follow. */
  lemma {:induction false} ByteAt(v: nat, width: nat, i: nat)
    requires i < width
    ensures Pow256(width - 1 - i) > 0 && BE(v, width)[i] == ByteOf(v / Pow256(width - 1 - i) % 256)
  {
    PowPositive(width - 1 - i);
    if i < width - 1 {
      ByteAt(v / 256, width - 1, i);
      DivDiv(v, Pow256(width - 2 - i));
    }
  }

  lemma {:induction false} PowPositive(k: nat)
    ensures Pow256(k) > 0
  {
    if k > 0 { PowPositive(k - 1); }
  }

  /** Writes `value` most significant byte first, and nothing else. */
  method PutBE(out: array<Byte>, pos: nat, value: nat, width: nat) returns (next: nat)
    requires pos + width <= out.Length
    modifies out
    ensures next == pos + width
    ensures out[..pos] == old(out[..pos]) && out[pos..next] == BE(value, width) && out[next..] == old(out[next..])
  {
    hide BE, ByteOf, Pow256;
    for i := 0 to width
      invariant forall k :: 0 <= k < out.Length && !(pos <= k < pos + i) ==> out[k] == old(out[k])
      invariant forall k :: 0 <= k < i ==> out[pos + k] == BE(value, width)[k]
    {
      ByteAt(value, width, i);
      out[pos + i] := ByteOf(value / Pow256(width - 1 - i) % 256);
    }
    next := pos + width;
  }

  method PutByte(out: array<Byte>, pos: nat, b: Byte) returns (next: nat)
    requires pos < out.Length
    modifies out
    ensures next == pos + 1
    ensures out[..pos] == old(out[..pos]) && out[pos..next] == [b] && out[next..] == old(out[next..])
  {
    out[pos] := b;
    next := pos + 1;
  }

  /** Appending a field to what has been written since `from`. */
  lemma Appended(s: seq<Byte>, from: nat, pos: nat, next: nat, done: seq<Byte>, field: seq<Byte>)
    requires from <= pos <= next <= |s| && s[from..pos] == done && s[pos..next] == field
    ensures s[from..next] == done + field
  {}

  lemma Stretch(a: seq<Byte>, b: seq<Byte>, i: nat, j: nat)
    requires i <= j <= |a| && j <= |b| && a[..j] == b[..j]
    ensures a[i..j] == b[i..j]
  {}

  /** Puts a field and extends the stretch written since byte 13. */
  method Append(out: array<Byte>, pos: nat, value: nat, width: nat) returns (next: nat)
    requires 13 <= pos && pos + width <= out.Length
    modifies out
    ensures next == pos + width && out[13..next] == old(out[13..pos]) + BE(value, width)
  {
    hide BE;
    next := PutBE(out, pos, value, width);
    Stretch(out[..], old(out[..]), 13, pos);
    Appended(out[..], 13, pos, next, old(out[13..pos]), BE(value, width));
  }

  method AppendByte(out: array<Byte>, pos: nat, b: Byte) returns (next: nat)
    requires 13 <= pos < out.Length
    modifies out
    ensures next == pos + 1 && out[13..next] == old(out[13..pos]) + [b]
  {
    next := PutByte(out, pos, b);
    Stretch(out[..], old(out[..]), 13, pos);
    Appended(out[..], 13, pos, next, old(out[13..pos]), [b]);
  }

  method PutPayload(out: array<Byte>, e: Event) returns (next: nat)
    requires out.Length == BUFFER && Encodable(e)
    modifies out
    ensures next == 13 + |Payload(e)| && out[13..next] == Payload(e)
  {
    hide BE, TypeByte, I64;
    next := Append(out, 13, e.time, 8);
    assert out[13..next] == BE(e.time, 8) by { assert [] + BE(e.time, 8) == BE(e.time, 8); }
    match e
    case Accepted(_, _, id, symbol, trader, isBuy, ticks, quantity, remaining, kind, priority) =>
      next := Append(out, next, id, 8);
      next := Append(out, next, symbol, 4);
      next := Append(out, next, trader, 4);
      next := AppendByte(out, next, if isBuy then 1 else 0);
      next := Append(out, next, I64(ticks), 8);
      next := Append(out, next, quantity, 4);
      next := Append(out, next, remaining, 4);
      next := AppendByte(out, next, TypeByte(kind));
      next := Append(out, next, priority, 8);
    case Cancelled(_, _, id, _, _, _) =>
      next := Append(out, next, id, 8);
    case Traded(_, _, restingId, aggressorId, symbol, trader, quantity, ticks, aggressorIsBuy) =>
      next := Append(out, next, restingId, 8);
      next := Append(out, next, aggressorId, 8);
      next := Append(out, next, symbol, 4);
      next := Append(out, next, trader, 4);
      next := Append(out, next, quantity, 4);
      next := Append(out, next, I64(ticks), 8);
      next := AppendByte(out, next, if aggressorIsBuy then 1 else 0);
  }

  /** The record buffer ends up holding exactly the encoding of the event. */
  method Serialize(e: Event) returns (out: array<Byte>, size: nat)
    requires Encodable(e)
    ensures size <= out.Length && out[..size] == Encode(e)
  {
    hide BE, Crc, Payload, WordBytes;
    out := new Byte[BUFFER];
    var end := PutPayload(out, e);
    ghost var payload := out[13..];
    var pos := PutBE(out, 0, end - 13, 4);
    assert out[13..] == payload by { assert out[13..] == out[4..][9..]; }
    pos := PutBE(out, 4, e.sequence, 8);
    assert out[13..] == payload by { assert out[13..] == out[12..][1..]; }
    pos := PutByte(out, 12, CommandByte(e));
    ghost var r := RecordOf(e);
    assert out[..end] == Body(r) by {
      assert out[..4] == BE(|r.payload|, 4) && out[4..12] == BE(r.sequence, 8) && out[12..13] == [r.command];
      assert out[13..end] == payload[..end - 13] == r.payload;
      assert out[..end] == out[..4] + out[4..12] + out[12..13] + out[13..end];
    }
    var crc := Checksum(out[..end]);
    ghost var w := WordBytes(crc);
    size := PutWord(out, end, crc);
    assert out[..size] == out[..end] + out[end..size];
  }

  method PutWord(out: array<Byte>, pos: nat, w: bv32) returns (next: nat)
    requires pos + 4 <= out.Length
    modifies out
    ensures next == pos + 4 && out[..pos] == old(out[..pos]) && out[pos..next] == WordBytes(w)
  {
    var bytes := WordBytes(w);
    hide WordBytes;
    out[pos], out[pos + 1], out[pos + 2], out[pos + 3] := bytes[0], bytes[1], bytes[2], bytes[3];
    next := pos + 4;
    assert out[pos..next] == bytes;
  }
}
