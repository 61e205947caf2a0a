/** Bytes, big-endian integers, and the reflected CRC-32 of section 8 of RFC 1952. */
module Bytes {
  import opened Types

  type Byte = bv8

  function FromByte(b: Byte): (n: nat)
    ensures n < 256
  {
    16 * ((b >> 4) as bv4 as nat) + ((b & 0xF) as bv4 as nat)
  }

  function ByteOf(n: nat): Byte
    requires n < 256
  {
    (((n / 16) as bv4 as bv8) << 4) | ((n % 16) as bv4 as bv8)
  }

  lemma Nibble(n: nat)
    requires n < 16
    ensures (n as bv4) as nat == n
  {}

  lemma Nibbles(h: bv4, l: bv4)
    ensures var b := ((h as bv8) << 4) | (l as bv8); (b >> 4) as bv4 == h && (b & 0xF) as bv4 == l
  {}

  lemma FromByteOf(n: nat)
    requires n < 256
    ensures FromByte(ByteOf(n)) == n
  {
    Nibble(n / 16);
    Nibble(n % 16);
    Nibbles((n / 16) as bv4, (n % 16) as bv4);
  }

  lemma NibbleBack(h: bv4)
    ensures (h as nat) < 16 && (h as nat) as bv4 == h
  {}

  lemma Join(b: Byte)
    ensures (((b >> 4) as bv4 as bv8) << 4) | ((b & 0xF) as bv4 as bv8) == b
  {}

  lemma ByteOfFrom(b: Byte)
    ensures ByteOf(FromByte(b)) == b
  {
    var h, l := (b >> 4) as bv4, (b & 0xF) as bv4;
    NibbleBack(h);
    NibbleBack(l);
    assert FromByte(b) / 16 == h as nat && FromByte(b) % 16 == l as nat;
    Join(b);
  }

  /** `n` in `width` bytes, most significant first. */
  function BE(n: nat, width: nat): (s: seq<Byte>)
    ensures |s| == width
  {
    if width == 0 then [] else BE(n / 256, width - 1) + [ByteOf(n % 256)]
  }

  function FromBE(s: seq<Byte>): nat {
    if s == [] then 0 else FromBE(s[..|s| - 1]) * 256 + FromByte(s[|s| - 1])
  }

  function Pow256(k: nat): nat { if k == 0 then 1 else 256 * Pow256(k - 1) }

  lemma {:induction false} FromBEOf(n: nat, width: nat)
    requires n < Pow256(width)
    ensures FromBE(BE(n, width)) == n
  {
    if width > 0 {
      FromBEOf(n / 256, width - 1);
      FromByteOf(n % 256);
      assert BE(n, width)[..width - 1] == BE(n / 256, width - 1);
    }
  }

  /** 32- and 64-bit fields survive the trip. */
  lemma U32RoundTrip(n: nat)
    requires n < U32
    ensures FromBE(BE(n, 4)) == n
  {
    assert Pow256(4) == U32 by { assert Pow256(2) == 65536; }
    FromBEOf(n, 4);
  }

  lemma U64RoundTrip(n: nat)
    requires n < U64
    ensures FromBE(BE(n, 8)) == n
  {
    assert Pow256(8) == U64 by { assert Pow256(2) == 65536; assert Pow256(4) == U32; assert Pow256(6) == 65536 * U32; }
    FromBEOf(n, 8);
  }

  /** Signed 64-bit integers in two's complement. */
  function I64(v: int): nat
    requires -U63 <= v < U63
  {
    if v < 0 then v + U64 else v
  }

  function FromI64(n: nat): int { if n < U63 then n else n - U64 }

  lemma I64RoundTrip(v: int)
    requires -U63 <= v < U63
    ensures I64(v) < U64 && FromI64(FromBE(BE(I64(v), 8))) == v
  {
    U64RoundTrip(I64(v));
  }

  /** The same for a checksum word. */
  function WordBytes(w: bv32): (s: seq<Byte>)
    ensures |s| == 4
  {
    [((w >> 24) & 0xFF) as bv8, ((w >> 16) & 0xFF) as bv8, ((w >> 8) & 0xFF) as bv8, (w & 0xFF) as bv8]
  }

  function FromWordBytes(s: seq<Byte>): bv32
    requires |s| == 4
  {
    ((s[0] as bv32) << 24) | ((s[1] as bv32) << 16) | ((s[2] as bv32) << 8) | (s[3] as bv32)
  }

  lemma WordRoundTrip(w: bv32)
    ensures FromWordBytes(WordBytes(w)) == w
  {}

  lemma WordRoundTripBack(s: seq<Byte>)
    requires |s| == 4
    ensures WordBytes(FromWordBytes(s)) == s
  {}
}

module Crc32 {
  import opened Bytes

  // ----- the definition: division one bit at a time -----------------------------------------------

  function Xor(a: bv32, b: bv32): bv32 { a ^ b }

  function Word(b: Byte): bv32 { b as bv32 }

  function BitStep(c: bv32): bv32 { if c & 1 == 1 then (c >> 1) ^ 0xEDB8_8320 else c >> 1 }

  function BitSteps(c: bv32, n: nat): bv32 { if n == 0 then c else BitStep(BitSteps(c, n - 1)) }

  function ByteStep(c: bv32, b: Byte): bv32 { BitSteps(Xor(c, Word(b)), 8) }

  function Fold(c: bv32, data: seq<Byte>): bv32
    decreases |data|
  {
    if data == [] then c else Fold(ByteStep(c, data[0]), data[1..])
  }

  function Crc(data: seq<Byte>): bv32 { Xor(Fold(0xFFFF_FFFF, data), 0xFFFF_FFFF) }

  // ----- linearity ----------------------------------------------------------------------------------

  lemma Low(a: bv32)
    ensures a & 1 == 0 || a & 1 == 1
  {}

  lemma OddOdd(a: bv32, b: bv32)
    requires a & 1 == 1 && b & 1 == 1
    ensures BitStep(Xor(a, b)) == Xor(BitStep(a), BitStep(b))
  {}

  lemma OddEven(a: bv32, b: bv32)
    requires a & 1 == 1 && b & 1 == 0
    ensures BitStep(Xor(a, b)) == Xor(BitStep(a), BitStep(b))
  {}

  lemma EvenOdd(a: bv32, b: bv32)
    requires a & 1 == 0 && b & 1 == 1
    ensures BitStep(Xor(a, b)) == Xor(BitStep(a), BitStep(b))
  {}

  lemma EvenEven(a: bv32, b: bv32)
    requires a & 1 == 0 && b & 1 == 0
    ensures BitStep(Xor(a, b)) == Xor(BitStep(a), BitStep(b))
  {}

  lemma BitStepLinear(a: bv32, b: bv32)
    ensures BitStep(Xor(a, b)) == Xor(BitStep(a), BitStep(b))
  {
    hide BitStep, Xor;
    Low(a);
    Low(b);
    if a & 1 == 1 {
      if b & 1 == 1 { OddOdd(a, b); } else { OddEven(a, b); }
    } else {
      if b & 1 == 1 { EvenOdd(a, b); } else { EvenEven(a, b); }
    }
  }

  lemma {:induction false} BitStepsLinear(a: bv32, b: bv32, n: nat)
    ensures BitSteps(Xor(a, b), n) == Xor(BitSteps(a, n), BitSteps(b, n))
  {
    hide BitStep, Xor;
    if n > 0 {
      BitStepsLinear(a, b, n - 1);
      BitStepLinear(BitSteps(a, n - 1), BitSteps(b, n - 1));
    }
  }

  // ----- the table ----------------------------------------------------------------------------------

  function Shift(c: bv32): bv32 { c >> 8 }

  /** The low byte of `c` combined with the next input byte. */
  function Index(c: bv32, b: Byte): Byte { ((c ^ (b as bv32)) & 0xFF) as bv8 }

  lemma EvenStep(c: bv32)
    requires c & 1 == 0
    ensures BitStep(c) == c >> 1
  {}

  lemma LowZeros(x: bv32)
    requires x & 0xFF == 0
    ensures x & 1 == 0 && (x >> 1) & 1 == 0 && (x >> 2) & 1 == 0 && (x >> 3) & 1 == 0
    ensures (x >> 4) & 1 == 0 && (x >> 5) & 1 == 0 && (x >> 6) & 1 == 0 && (x >> 7) & 1 == 0
    ensures (x >> 1) >> 1 == x >> 2 && (x >> 2) >> 1 == x >> 3 && (x >> 3) >> 1 == x >> 4
    ensures (x >> 4) >> 1 == x >> 5 && (x >> 5) >> 1 == x >> 6 && (x >> 6) >> 1 == x >> 7 && (x >> 7) >> 1 == x >> 8
  {}

  lemma NextSteps(c: bv32, n: nat)
    requires n > 0
    ensures BitSteps(c, n) == BitStep(BitSteps(c, n - 1))
  {}

  lemma NoSteps(c: bv32)
    ensures BitSteps(c, 0) == c
  {}

  /** Eight steps shift out a low byte of zeros. */
  lemma ZeroByteSteps(x: bv32)
    requires x & 0xFF == 0
    ensures BitSteps(x, 8) == Shift(x)
  {
    LowZeros(x);
    hide BitStep, BitSteps;
    NoSteps(x);
    EvenStep(x);       NextSteps(x, 1);
    EvenStep(x >> 1);  NextSteps(x, 2);
    EvenStep(x >> 2);  NextSteps(x, 3);
    EvenStep(x >> 3);  NextSteps(x, 4);
    EvenStep(x >> 4);  NextSteps(x, 5);
    EvenStep(x >> 5);  NextSteps(x, 6);
    EvenStep(x >> 6);  NextSteps(x, 7);
    EvenStep(x >> 7);  NextSteps(x, 8);
  }

  lemma SplitWord(c: bv32, b: Byte) returns (h: bv32)
    ensures h & 0xFF == 0 && Shift(h) == Shift(c) && Xor(c, Word(b)) == Xor(h, Word(Index(c, b)))
  {
    h := (c >> 8) << 8;
  }

  /** One table lookup does the work of eight bit steps. */
  lemma TableStep(c: bv32, b: Byte)
    ensures ByteStep(c, b) == Xor(Shift(c), BitSteps(Word(Index(c, b)), 8))
  {
    hide BitStep, BitSteps, Xor, Word, Shift, Index;
    var h := SplitWord(c, b);
    ZeroByteSteps(h);
    BitStepsLinear(h, Word(Index(c, b)), 8);
  }

  ghost predicate IsTable(t: seq<bv32>) {
    |t| == 256 && forall b: Byte :: t[FromByte(b)] == BitSteps(Word(b), 8)
  }

  /** The table of the reflected polynomial. */
  method BuildTable() returns (table: array<bv32>)
    ensures fresh(table) && IsTable(table[..])
  {
    hide BitStep, Word;
    table := new bv32[256];
    for i := 0 to 256
      invariant forall j :: 0 <= j < i ==> table[j] == BitSteps(Word(ByteOf(j)), 8)
    {
      var crc: bv32 := Word(ByteOf(i));
      for bit := 0 to 8
        invariant crc == BitSteps(Word(ByteOf(i)), bit)
        invariant forall j :: 0 <= j < i ==> table[j] == BitSteps(Word(ByteOf(j)), 8)
      {
        StepBranches(crc);
        if crc & 1 == 1 {
          crc := (crc >> 1) ^ 0xEDB8_8320;
        } else {
          crc := crc >> 1;
        }
      }
      table[i] := crc;
    }
    forall b: Byte ensures table[..][FromByte(b)] == BitSteps(Word(b), 8) {
      ByteOfFrom(b);
      hide ByteOf, FromByte, BitSteps;
      assert table[FromByte(b)] == BitSteps(Word(ByteOf(FromByte(b))), 8);
    }
  }

  lemma StepBranches(c: bv32)
    ensures BitStep(c) == if c & 1 == 1 then (c >> 1) ^ 0xEDB8_8320 else c >> 1
  {}

  lemma {:induction false} FoldLast(c: bv32, data: seq<Byte>, n: nat)
    requires n < |data|
    ensures Fold(c, data[..n + 1]) == ByteStep(Fold(c, data[..n]), data[n])
    decreases |data|
  {
    hide ByteStep;
    var d := data[..n + 1];
    if n == 0 {
      assert d[1..] == [] && data[..0] == [];
    } else {
      assert d[1..] == data[1..][..n] && data[..n][1..] == data[1..][..n - 1];
      FoldLast(ByteStep(c, data[0]), data[1..], n - 1);
    }
  }

  /** The table-driven checksum is the bit-at-a-time one, on every byte string. */
  method Checksum(data: seq<Byte>) returns (crc: bv32)
    ensures crc == Crc(data)
  {
    hide BitStep, BitSteps, ByteStep, Xor, Shift, Index, Word, FromByte;
    var table := BuildTable();
    crc := 0xFFFF_FFFF;
    for i := 0 to |data|
      invariant crc == Fold(0xFFFF_FFFF, data[..i])
      invariant IsTable(table[..])
    {
      FoldLast(0xFFFF_FFFF, data, i);
      TableStep(crc, data[i]);
      var index := Index(crc, data[i]);
      assert table[..][FromByte(index)] == BitSteps(Word(index), 8);
      crc := Xor(Shift(crc), table[FromByte(index)]);
    }
    assert data[..|data|] == data;
    crc := Xor(crc, 0xFFFF_FFFF);
  }

  // ----- error detection ------------------------------------------------------------------------------

  lemma BitStepInjective(a: bv32, b: bv32)
    requires BitStep(a) == BitStep(b)
    ensures a == b
  {}

  lemma {:induction false} BitStepsInjective(a: bv32, b: bv32, n: nat)
    requires BitSteps(a, n) == BitSteps(b, n)
    ensures a == b
  {
    hide BitStep;
    if n > 0 {
      BitStepInjective(BitSteps(a, n - 1), BitSteps(b, n - 1));
      BitStepsInjective(a, b, n - 1);
    }
  }

  lemma XorInjective(a: bv32, b: bv32, c: bv32)
    ensures Xor(a, c) == Xor(b, c) ==> a == b
  {}

  lemma XorBytes(c: bv32, a: Byte, b: Byte)
    ensures Xor(c, Word(a)) == Xor(c, Word(b)) ==> a == b
  {}

  lemma ByteStepInjective(a: bv32, b: bv32, x: Byte)
    requires a != b
    ensures ByteStep(a, x) != ByteStep(b, x)
  {
    hide BitStep, BitSteps, Xor, Word;
    XorInjective(a, b, Word(x));
    if ByteStep(a, x) == ByteStep(b, x) { BitStepsInjective(Xor(a, Word(x)), Xor(b, Word(x)), 8); }
  }

  lemma ByteStepDetects(c: bv32, x: Byte, y: Byte)
    requires x != y
    ensures ByteStep(c, x) != ByteStep(c, y)
  {
    hide BitStep, BitSteps, Xor, Word;
    XorBytes(c, x, y);
    if ByteStep(c, x) == ByteStep(c, y) { BitStepsInjective(Xor(c, Word(x)), Xor(c, Word(y)), 8); }
  }

  lemma {:induction false} FoldInjective(a: bv32, b: bv32, data: seq<Byte>)
    requires a != b
    ensures Fold(a, data) != Fold(b, data)
    decreases |data|
  {
    hide ByteStep;
    if data != [] {
      ByteStepInjective(a, b, data[0]);
      FoldInjective(ByteStep(a, data[0]), ByteStep(b, data[0]), data[1..]);
    }
  }

  lemma {:induction false} FoldDetects(c: bv32, data: seq<Byte>, p: nat, b: Byte)
    requires p < |data| && b != data[p]
    ensures Fold(c, data[p := b]) != Fold(c, data)
    decreases |data|
  {
    hide ByteStep;
    var d := data[p := b];
    if p == 0 {
      assert d[1..] == data[1..];
      ByteStepDetects(c, b, data[0]);
      FoldInjective(ByteStep(c, b), ByteStep(c, data[0]), data[1..]);
    } else {
      assert d[1..] == data[1..][p - 1 := b];
      FoldDetects(ByteStep(c, data[0]), data[1..], p - 1, b);
    }
  }

  /** Changing any one byte changes the checksum. */
  lemma CrcDetects(data: seq<Byte>, p: nat, b: Byte)
    requires p < |data| && b != data[p]
    ensures Crc(data[p := b]) != Crc(data)
  {
    hide ByteStep, Xor;
    FoldDetects(0xFFFF_FFFF, data, p, b);
    XorInjective(Fold(0xFFFF_FFFF, data[p := b]), Fold(0xFFFF_FFFF, data), 0xFFFF_FFFF);
  }
}
