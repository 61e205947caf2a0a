/** The journal's single-producer single-consumer ring, as interleaved atomic steps on wrapping 64-bit counters. */
module JournalRing {
  import opened Types
  import opened Bytes
  import opened Arithmetic

  const MAX_RECORD: nat := 1088

  // ----- counters and masks -------------------------------------------------------------------------

  function Pow2(k: nat): (p: nat)
    ensures p > 0
  {
    if k == 0 then 1 else 2 * Pow2(k - 1)
  }

  /** Bitwise and on naturals. */
  function And(a: nat, b: nat): nat {
    if a == 0 || b == 0 then 0 else (if a % 2 == 1 && b % 2 == 1 then 1 else 0) + 2 * And(a / 2, b / 2)
  }

  lemma AndStep(a: nat, p: nat)
    requires p > 0
    ensures And(a, 2 * p - 1) == a % 2 + 2 * And(a / 2, p - 1)
  {}

  /** Masking with a power of two less one is taking the remainder. */
  lemma {:induction false} MaskIsMod(a: nat, k: nat)
    ensures And(a, Pow2(k) - 1) == a % Pow2(k)
  {
    if k > 0 {
      MaskIsMod(a / 2, k - 1);
      AndStep(a, Pow2(k - 1));
      HalvedMod(a, Pow2(k - 1));
    }
  }

  lemma HalvedMod(a: nat, p: nat)
    requires p > 0
    ensures a % (2 * p) == a % 2 + 2 * (a / 2 % p)
  {
    var q, r := a / 2 / p, a / 2 % p;
    assert a / 2 == p * q + r;
    assert a == 2 * p * q + (a % 2 + 2 * r);
    DivModUnique(a, 2 * p, q, a % 2 + 2 * r);
  }

  lemma {:induction false} PowSplit(j: nat, k: nat)
    ensures Pow2(j + k) == Pow2(j) * Pow2(k)
  {
    if j > 0 { PowSplit(j - 1, k); }
  }

  /** A power-of-two capacity divides the range of the counters, so wrapping is invisible to the slot index. */
  lemma WrapInvisible(n: nat, k: nat)
    requires k <= 63
    ensures Pow2(64) == U64 && Pow2(k) < U64 && (n % U64) % Pow2(k) == n % Pow2(k)
  {
    Pow64();
    PowSplit(64 - k, k);
    PowMonotone(k, 63);
    hide Pow2;
    assert U64 == Pow2(64 - k) * Pow2(k);
    ModOfMod(n, Pow2(k), Pow2(64 - k), U64);
  }

  lemma ModOfMod(n: nat, c: nat, m: nat, d: nat)
    requires c > 0 && m > 0 && d == m * c
    ensures n % d % c == n % c
  {
    var q, x := n / d, n % d;
    assert n == d * q + x;
    assert d * q == c * (m * q);
    assert x == c * (x / c) + x % c;
    assert n == c * (m * q + x / c) + x % c;
    DivModUnique(n, c, m * q + x / c, x % c);
  }

  lemma Pow8()
    ensures Pow2(8) == 256 && Pow2(64) == 2 * Pow2(63)
  {}

  lemma Pow64()
    ensures Pow2(64) == U64 && Pow2(63) < U64
  {
    hide Pow2;
    Pow8();
    PowSplit(8, 8);
    PowSplit(16, 16);
    PowSplit(32, 32);
  }

  lemma {:induction false} PowMonotone(j: nat, k: nat)
    requires j <= k
    ensures Pow2(j) <= Pow2(k)
  {
    if j < k { PowMonotone(j, k - 1); }
  }

  /** Fewer than `c` apart means different slots. */
  lemma DifferentSlots(m: nat, n: nat, c: nat)
    requires c > 0 && m < n < m + c
    ensures m % c != n % c
  {
    if m % c == n % c {
      assert c * (n / c - m / c) == n - m;
      Small(c, n / c - m / c);
    }
  }

  /** Unsigned subtraction recovers the true distance of two wrapped counters. */
  lemma WrappedDistance(h: nat, t: nat)
    requires t <= h < t + U64
    ensures (h % U64 - t % U64) % U64 == h - t
  {}

  // ----- the protocol -------------------------------------------------------------------------------

  datatype Slot = Slot(size: nat, data: seq<Byte>)

  /** Where the producer stands inside `tryPush`, with the counter value it loaded. */
  datatype Producer =
    | Idle
    | Loaded(record: seq<Byte>, h: nat)
    | Copying(record: seq<Byte>, h: nat, i: nat)
    | Sized(record: seq<Byte>, h: nat)

  /** Where the consumer stands inside `tryPop`. */
  datatype Consumer =
    | Waiting
    | Peeked(t: nat)
    | Claimed(t: nat)
    | Reading(t: nat, size: nat, view: seq<Byte>)

  /** `pushed` and `popped` record what `tryPush` accepted and `tryPop` returned, in order. */
  datatype Ring = Ring(k: nat, slots: seq<Slot>, head: nat, tail: nat, producer: Producer, consumer: Consumer,
                       pushed: seq<seq<Byte>>, popped: seq<seq<Byte>>)

  datatype Action =
    | Push(record: seq<Byte>) | CheckFull | CopyIn | SetSize | PublishHead
    | Pop | CheckEmpty | ReadSize | CopyOut | PublishTail

  function Capacity(s: Ring): nat { Pow2(s.k) }

  function Index(s: Ring, counter: nat): nat { And(counter, Capacity(s) - 1) }

  predicate ValidSize(n: nat) { 0 < n <= MAX_RECORD }

  /** One atomic step of either thread; an action that is not the thread's next does nothing. */
  function Step(s: Ring, a: Action): Ring {
    match (a, s.producer, s.consumer)
    case (Push(record), Idle, _) =>
      if ValidSize(|record|) then s.(producer := Loaded(record, s.head)) else s
    case (CheckFull, Loaded(record, h), _) =>
      if (h - s.tail) % U64 >= Capacity(s) then s.(producer := Idle) else s.(producer := Copying(record, h, 0))
    case (CopyIn, Copying(record, h, i), _) =>
      var x := Index(s, h);
      if i < |record| && x < |s.slots| && i < |s.slots[x].data| then
        s.(slots := s.slots[x := s.slots[x].(data := s.slots[x].data[i := record[i]])],
           producer := Copying(record, h, i + 1))
      else s
    case (SetSize, Copying(record, h, i), _) =>
      var x := Index(s, h);
      if i == |record| && x < |s.slots| then
        s.(slots := s.slots[x := s.slots[x].(size := |record|)], producer := Sized(record, h))
      else s
    case (PublishHead, Sized(record, h), _) =>
      s.(head := (h + 1) % U64, producer := Idle, pushed := s.pushed + [record])
    case (Pop, _, Waiting) => s.(consumer := Peeked(s.tail))
    case (CheckEmpty, _, Peeked(t)) => s.(consumer := if t == s.head then Waiting else Claimed(t))
    case (ReadSize, _, Claimed(t)) =>
      var x := Index(s, t);
      if x >= |s.slots| then s
      else if ValidSize(s.slots[x].size) then s.(consumer := Reading(t, s.slots[x].size, []))
      else s.(tail := (t + 1) % U64, consumer := Waiting)
    case (CopyOut, _, Reading(t, size, view)) =>
      var x := Index(s, t);
      if |view| < size && x < |s.slots| && |view| < |s.slots[x].data| then
        s.(consumer := Reading(t, size, view + [s.slots[x].data[|view|]]))
      else s
    case (PublishTail, _, Reading(t, size, view)) =>
      if |view| == size then s.(tail := (t + 1) % U64, consumer := Waiting, popped := s.popped + [view]) else s
    case _ => s
  }

  function Run(s: Ring, actions: seq<Action>): Ring
    decreases |actions|
  {
    if actions == [] then s else Run(Step(s, actions[0]), actions[1..])
  }

  /** A new ring; what the slots hold is arbitrary. */
  predicate Initial(s: Ring) {
    && s.k <= 63 && |s.slots| == Capacity(s) && (forall i :: 0 <= i < |s.slots| ==> |s.slots[i].data| == MAX_RECORD)
    && s.head == s.tail == 0 && s.producer == Idle && s.consumer == Waiting && s.pushed == s.popped == []
  }

  // ----- the invariant ------------------------------------------------------------------------------

  predicate Holds(slot: Slot, record: seq<Byte>) {
    ValidSize(|record|) && slot.size == |record| && |slot.data| == MAX_RECORD && slot.data[..slot.size] == record
  }

  ghost predicate Geometry(s: Ring) {
    && s.k <= 63 && |s.slots| == Capacity(s) && (forall i :: 0 <= i < |s.slots| ==> |s.slots[i].data| == MAX_RECORD)
    && s.head == |s.pushed| % U64 && s.tail == |s.popped| % U64
    && |s.popped| <= |s.pushed| <= |s.popped| + Capacity(s)
    && s.popped == s.pushed[..|s.popped|]
  }

  /** Every record pushed but not yet popped sits intact in its slot. */
  ghost predicate Intact(s: Ring) {
    |s.slots| == Capacity(s) && forall n :: |s.popped| <= n < |s.pushed| ==>
      Holds(s.slots[n % Capacity(s)], s.pushed[n])
  }

  ghost predicate ProducerOk(s: Ring) {
    match s.producer
    case Idle => true
    case Loaded(record, h) => h == s.head && ValidSize(|record|)
    case Copying(record, h, i) =>
      && h == s.head && ValidSize(|record|) && |s.pushed| < |s.popped| + Capacity(s) && |s.slots| == Capacity(s)
      && i <= |record| && |s.slots[|s.pushed| % Capacity(s)].data| == MAX_RECORD
      && s.slots[|s.pushed| % Capacity(s)].data[..i] == record[..i]
    case Sized(record, h) =>
      && h == s.head && |s.pushed| < |s.popped| + Capacity(s) && |s.slots| == Capacity(s)
      && Holds(s.slots[|s.pushed| % Capacity(s)], record)
  }

  ghost predicate ConsumerOk(s: Ring) {
    match s.consumer
    case Waiting => true
    case Peeked(t) => t == s.tail
    case Claimed(t) => t == s.tail && |s.popped| < |s.pushed|
    case Reading(t, size, view) =>
      && t == s.tail && |s.popped| < |s.pushed| && size == |s.pushed[|s.popped|]| && |view| <= size
      && view == s.pushed[|s.popped|][..|view|]
  }

  ghost predicate Inv(s: Ring) { Geometry(s) && Intact(s) && ProducerOk(s) && ConsumerOk(s) }

  lemma IndexOf(s: Ring, n: nat)
    requires s.k <= 63
    ensures Index(s, n % U64) == n % Capacity(s) < Capacity(s)
  {
    MaskIsMod(n % U64, s.k);
    WrapInvisible(n, s.k);
  }

  /** The slot being written is not that of any unread record. */
  lemma NeverOverwrites(s: Ring, n: nat)
    requires Inv(s) && s.producer.Copying? && |s.popped| <= n < |s.pushed|
    ensures Index(s, s.producer.h) != n % Capacity(s)
  {
    IndexOf(s, |s.pushed|);
    DifferentSlots(n, |s.pushed|, Capacity(s));
  }

  lemma CheckFullKeeps(s: Ring)
    requires Inv(s) && s.producer.Loaded?
    ensures Inv(Step(s, CheckFull))
  {
    hide And, Pow2;
    WrapInvisible(0, s.k);
    WrappedDistance(|s.pushed|, |s.popped|);
    IndexOf(s, |s.pushed|);
  }

  lemma CopyInKeeps(s: Ring)
    requires Inv(s) && s.producer.Copying?
    ensures Inv(Step(s, CopyIn))
  {
    hide And;
    IndexOf(s, |s.pushed|);
    var r := s.producer.record;
    var i := s.producer.i;
    var x := Index(s, s.producer.h);
    if i < |r| {
      var s' := Step(s, CopyIn);
      forall n | |s.popped| <= n < |s.pushed| ensures Holds(s'.slots[n % Capacity(s)], s.pushed[n]) {
        NeverOverwrites(s, n);
      }
      assert s'.slots[x].data[..i + 1] == s.slots[x].data[..i] + [r[i]];
    }
  }

  lemma SetSizeKeeps(s: Ring)
    requires Inv(s) && s.producer.Copying?
    ensures Inv(Step(s, SetSize))
  {
    hide And;
    IndexOf(s, |s.pushed|);
    var r := s.producer.record;
    if s.producer.i == |r| {
      var s' := Step(s, SetSize);
      forall n | |s.popped| <= n < |s.pushed| ensures Holds(s'.slots[n % Capacity(s)], s.pushed[n]) {
        NeverOverwrites(s, n);
      }
      assert r[..|r|] == r;
    }
  }

  lemma PublishHeadKeeps(s: Ring)
    requires Inv(s) && s.producer.Sized?
    ensures Inv(Step(s, PublishHead))
  {
    hide And, Pow2, Holds, Intact, Geometry;
    PublishedGeometry(s);
    PublishedIntact(s);
  }

  lemma PublishedGeometry(s: Ring)
    requires Geometry(s) && s.producer.Sized? && s.producer.h == s.head && |s.pushed| < |s.popped| + Capacity(s)
    ensures Geometry(Step(s, PublishHead))
  {
    hide And, Pow2;
    Increment(|s.pushed|);
    assert Step(s, PublishHead).pushed[..|s.popped|] == s.pushed[..|s.popped|];
  }

  lemma PublishedIntact(s: Ring)
    requires Intact(s) && s.producer.Sized? && Holds(s.slots[|s.pushed| % Capacity(s)], s.producer.record)
    ensures Intact(Step(s, PublishHead))
  {
    hide And, Pow2, Holds;
  }

  lemma Increment(n: nat)
    ensures (n % U64 + 1) % U64 == (n + 1) % U64
  {}

  lemma CheckEmptyKeeps(s: Ring)
    requires Inv(s) && s.consumer.Peeked?
    ensures Inv(Step(s, CheckEmpty))
  {
    hide And, Pow2;
    WrapInvisible(0, s.k);
    WrappedDistance(|s.pushed|, |s.popped|);
  }

  lemma ReadSizeKeeps(s: Ring)
    requires Inv(s) && s.consumer.Claimed?
    ensures Inv(Step(s, ReadSize))
  {
    hide And, Pow2;
    IndexOf(s, |s.popped|);
    assert Holds(s.slots[|s.popped| % Capacity(s)], s.pushed[|s.popped|]);
  }

  lemma CopyOutKeeps(s: Ring)
    requires Inv(s) && s.consumer.Reading?
    ensures Inv(Step(s, CopyOut))
  {
    hide And, Pow2;
    IndexOf(s, |s.popped|);
    var r, v := s.pushed[|s.popped|], s.consumer.view;
    assert Holds(s.slots[|s.popped| % Capacity(s)], r);
    if |v| < |r| { assert r[..|v| + 1] == r[..|v|] + [r[|v|]]; }
  }

  lemma PublishTailKeeps(s: Ring)
    requires Inv(s)
    ensures Inv(Step(s, PublishTail))
  {
    hide And;
    if s.consumer.Reading? && |s.consumer.view| == s.consumer.size {
      var r := s.pushed[|s.popped|];
      assert r[..|r|] == r;
      Increment(|s.popped|);
      assert s.pushed[..|s.popped| + 1] == s.pushed[..|s.popped|] + [r];
    }
  }

  lemma StepKeeps(s: Ring, a: Action)
    requires Inv(s)
    ensures Inv(Step(s, a))
  {
    match a
    case Push(_) =>
    case CheckFull => if s.producer.Loaded? { CheckFullKeeps(s); }
    case CopyIn => if s.producer.Copying? { CopyInKeeps(s); }
    case SetSize => if s.producer.Copying? { SetSizeKeeps(s); }
    case PublishHead => if s.producer.Sized? { PublishHeadKeeps(s); }
    case PublishTail => PublishTailKeeps(s);
    case Pop =>
    case CheckEmpty => if s.consumer.Peeked? { CheckEmptyKeeps(s); }
    case ReadSize => if s.consumer.Claimed? { ReadSizeKeeps(s); }
    case CopyOut => if s.consumer.Reading? { CopyOutKeeps(s); }
  }

  lemma {:induction false} RunKeeps(s: Ring, actions: seq<Action>)
    requires Inv(s)
    ensures Inv(Run(s, actions))
    decreases |actions|
  {
    if actions != [] {
      StepKeeps(s, actions[0]);
      RunKeeps(Step(s, actions[0]), actions[1..]);
    }
  }

  /** In every interleaving, however often the counters wrap, the i-th record popped is the i-th pushed,
      and at most `capacity` records are in flight. */
  lemma FirstInFirstOut(s: Ring, actions: seq<Action>)
    requires Initial(s)
    ensures var r := Run(s, actions);
            r.popped <= r.pushed && |r.pushed| <= |r.popped| + Capacity(s)
  {
    RunKeeps(s, actions);
    CapacityFixed(s, actions);
  }

  lemma {:induction false} CapacityFixed(s: Ring, actions: seq<Action>)
    ensures Run(s, actions).k == s.k
    decreases |actions|
  {
    if actions != [] { CapacityFixed(Step(s, actions[0]), actions[1..]); }
  }

  /** The branch that skips a record of impossible size is never taken. */
  lemma SizeAlwaysValid(s: Ring)
    requires Inv(s) && s.consumer.Claimed?
    ensures Index(s, s.consumer.t) < |s.slots| && ValidSize(s.slots[Index(s, s.consumer.t)].size)
  {
    IndexOf(s, |s.popped|);
    assert Holds(s.slots[|s.popped| % Capacity(s)], s.pushed[|s.popped|]);
  }

  /** `tryPop` reports the ring empty exactly when every record pushed has been popped. */
  lemma EmptyIsEmpty(s: Ring)
    requires Inv(s) && s.consumer.Peeked?
    ensures Step(s, CheckEmpty).consumer == Waiting <==> |s.popped| == |s.pushed|
  {
    hide And, Pow2, Intact, ProducerOk;
    WrapInvisible(0, s.k);
    WrappedDistance(|s.pushed|, |s.popped|);
  }

  /** `tryPush` reports the ring full only when every slot holds an unread record. */
  lemma FullIsFull(s: Ring)
    requires Inv(s) && s.producer.Loaded?
    ensures Step(s, CheckFull).producer == Idle <==> |s.pushed| == |s.popped| + Capacity(s)
  {
    WrapInvisible(0, s.k);
    WrappedDistance(|s.pushed|, |s.popped|);
  }

  // ----- a call that nobody disturbs --------------------------------------------------------------------------

  lemma RunAppend(s: Ring, a: Action, rest: seq<Action>)
    ensures Run(s, [a] + rest) == Run(Step(s, a), rest)
  {
    hide Step;
    assert ([a] + rest)[1..] == rest;
  }

  lemma {:induction false} RunConcat(s: Ring, a: seq<Action>, b: seq<Action>)
    ensures Run(s, a + b) == Run(Run(s, a), b)
    decreases |a|
  {
    hide Step;
    if a == [] {
      assert a + b == b;
    } else {
      assert (a + b)[1..] == a[1..] + b;
      RunConcat(Step(s, a[0]), a[1..], b);
    }
  }

  /** A record of a size the ring takes, from one byte to the largest, is taken up; any other is refused. */
  lemma PushChecksSize(s: Ring, record: seq<Byte>)
    requires s.producer.Idle?
    ensures Step(s, Push(record)) ==
            if 1 <= |record| <= 1088 then s.(producer := Loaded(record, s.head)) else s
  {}

  lemma CopyStep(s: Ring)
    requires Inv(s) && s.producer.Copying? && s.producer.i < |s.producer.record|
    ensures var p, s' := s.producer, Step(s, CopyIn);
            && Inv(s') && s'.producer == Copying(p.record, p.h, p.i + 1)
            && s'.pushed == s.pushed && s'.popped == s.popped
  {
    hide And, Pow2;
    CopyInKeeps(s);
    IndexOf(s, |s.pushed|);
  }

  lemma {:induction false} CopyAll(s: Ring, n: nat)
    requires Inv(s) && s.producer.Copying? && n == |s.producer.record| - s.producer.i
    ensures var z := Run(s, seq(n, _ => CopyIn));
            && Inv(z) && z.producer == Copying(s.producer.record, s.producer.h, |s.producer.record|)
            && z.pushed == s.pushed && z.popped == s.popped
    decreases n
  {
    hide Step, Inv;
    var cs := seq(n, _ => CopyIn);
    if n > 0 {
      CopyStep(s);
      assert cs[0] == CopyIn && cs[1..] == seq(n - 1, _ => CopyIn);
      CopyAll(Step(s, CopyIn), n - 1);
    }
  }

  lemma Published(s: Ring)
    requires Inv(s) && s.producer.Copying? && s.producer.i == |s.producer.record|
    ensures var z := Step(Step(s, SetSize), PublishHead);
            z.producer.Idle? && z.pushed == s.pushed + [s.producer.record] && z.popped == s.popped
  {
    hide And, Pow2;
    IndexOf(s, |s.pushed|);
  }

  /** `tryPush` undisturbed: a record that fits a ring that is not full has been pushed when the call returns. */
  lemma PushAlone(s: Ring, record: seq<Byte>)
    requires Inv(s) && s.producer.Idle? && 1 <= |record| <= 1088 && |s.pushed| < |s.popped| + Capacity(s)
    ensures var cs := [Push(record), CheckFull] + seq(|record|, _ => CopyIn) + [SetSize, PublishHead];
            var z := Run(s, cs);
            z.producer.Idle? && z.pushed == s.pushed + [record] && z.popped == s.popped
  {
    PushChecksSize(s, record);
    var s1 := Step(s, Push(record));
    StepKeeps(s, Push(record));
    FullIsFull(s1);
    var s2 := Step(s1, CheckFull);
    assert s2 == s.(producer := Copying(record, s.head, 0));
    StepKeeps(s1, CheckFull);
    hide Step, Inv;
    var copies, last := seq(|record|, _ => CopyIn), [SetSize, PublishHead];
    CopyAll(s2, |record|);
    var s3 := Run(s2, copies);
    Published(s3);
    TwoSteps(s3, SetSize, PublishHead);
    TwoSteps(s, Push(record), CheckFull);
    RunConcat(s2, copies, last);
    RunConcat(s, [Push(record), CheckFull], copies + last);
    assert [Push(record), CheckFull] + copies + last == [Push(record), CheckFull] + (copies + last);
  }

  lemma TwoSteps(s: Ring, a: Action, b: Action)
    ensures Run(s, [a, b]) == Step(Step(s, a), b)
  {
    hide Step;
    assert [a, b][1..] == [b] && [b][1..] == [];
    assert Run(Step(s, a), [b]) == Run(Step(Step(s, a), b), []);
  }

  lemma ReadStep(s: Ring)
    requires Inv(s) && s.consumer.Reading? && |s.consumer.view| < s.consumer.size
    ensures var c, s' := s.consumer, Step(s, CopyOut);
            && Inv(s') && s'.consumer.Reading? && s'.consumer.size == c.size && |s'.consumer.view| == |c.view| + 1
            && s'.pushed == s.pushed && s'.popped == s.popped
  {
    hide And, Pow2;
    CopyOutKeeps(s);
    IndexOf(s, |s.popped|);
    assert Holds(s.slots[|s.popped| % Capacity(s)], s.pushed[|s.popped|]);
  }

  lemma {:induction false} ReadAll(s: Ring, n: nat)
    requires Inv(s) && s.consumer.Reading? && n == s.consumer.size - |s.consumer.view|
    ensures var z := Run(s, seq(n, _ => CopyOut));
            && Inv(z) && z.consumer.Reading? && |z.consumer.view| == z.consumer.size
            && z.pushed == s.pushed && z.popped == s.popped
    decreases n
  {
    hide Step, Inv;
    var cs := seq(n, _ => CopyOut);
    if n > 0 {
      ReadStep(s);
      assert cs[0] == CopyOut && cs[1..] == seq(n - 1, _ => CopyOut);
      ReadAll(Step(s, CopyOut), n - 1);
    }
  }

  lemma Claims(s: Ring)
    requires Inv(s) && s.consumer.Waiting? && |s.popped| < |s.pushed|
    ensures var z := Step(Step(Step(s, Pop), CheckEmpty), ReadSize);
            && Inv(z) && z.consumer.Reading? && z.consumer.size == |s.pushed[|s.popped|]| && z.consumer.view == []
            && z.pushed == s.pushed && z.popped == s.popped
  {
    hide And, Pow2;
    var s1 := Step(s, Pop);
    StepKeeps(s, Pop);
    EmptyIsEmpty(s1);
    var s2 := Step(s1, CheckEmpty);
    StepKeeps(s1, CheckEmpty);
    SizeAlwaysValid(s2);
    StepKeeps(s2, ReadSize);
  }

  lemma TailPublished(s: Ring)
    requires Inv(s) && s.consumer.Reading? && |s.consumer.view| == s.consumer.size
    ensures var z := Step(s, PublishTail);
            |s.popped| < |s.pushed| && z.consumer.Waiting? && z.popped == s.popped + [s.pushed[|s.popped|]]
            && z.pushed == s.pushed
  {
    hide And, Pow2;
    var r := s.pushed[|s.popped|];
    assert r[..|r|] == r;
  }

  /** `tryPop` undisturbed: a ring that is not empty has given its oldest record when the call returns. */
  lemma PopAlone(s: Ring)
    requires Inv(s) && s.consumer.Waiting? && |s.popped| < |s.pushed|
    ensures var r := s.pushed[|s.popped|];
            var z := Run(s, [Pop, CheckEmpty, ReadSize] + seq(|r|, _ => CopyOut) + [PublishTail]);
            z.consumer.Waiting? && z.popped == s.popped + [r] && z.pushed == s.pushed
  {
    Claims(s);
    hide Step, Inv;
    var r := s.pushed[|s.popped|];
    var s3 := Step(Step(Step(s, Pop), CheckEmpty), ReadSize);
    var copies := seq(|r|, _ => CopyOut);
    ReadAll(s3, |r|);
    var s4 := Run(s3, copies);
    TailPublished(s4);
    assert Run(s4, [PublishTail]) == Step(s4, PublishTail) by {
      assert [PublishTail][1..] == [];
      assert Run(Step(s4, PublishTail), []) == Step(s4, PublishTail);
    }
    RunAppend(s, Pop, [CheckEmpty, ReadSize]);
    TwoSteps(Step(s, Pop), CheckEmpty, ReadSize);
    assert [Pop] + [CheckEmpty, ReadSize] == [Pop, CheckEmpty, ReadSize];
    RunConcat(s3, copies, [PublishTail]);
    RunConcat(s, [Pop, CheckEmpty, ReadSize], copies + [PublishTail]);
    assert [Pop, CheckEmpty, ReadSize] + copies + [PublishTail]
           == [Pop, CheckEmpty, ReadSize] + (copies + [PublishTail]);
  }
}
