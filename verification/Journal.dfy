/** The journal's threads as interleaved atomic steps: the producer that publishes, the writer that owns the file,
    a flusher that waits for durability, and the destructor that stops them. */
module Journal {
  import opened Types
  import opened Bytes

  type Text = seq<Byte>

  datatype Lock = Free | WriterHolds | FlusherHolds

  datatype Producer =
    | PIdle
    | PCheckHealthy(record: Text)   // about to load `healthy`
    | PCheckRunning(record: Text)   // about to load `running`
    | PPush(record: Text)           // about to push to the ring
    | POwes                          // pushed; still has to count and notify
    | PFail                          // ring full; about to fail-stop

  datatype Writer =
    | WLock                          // about to take the mutex and test the wait condition
    | WTest                          // holds the mutex, about to test
    | WDecide                        // holds the mutex, condition was true
    | WDoze                          // holds the mutex, condition was false, about to sleep
    | WAsleep
    | WPop
    | WWriting(record: Text, k: nat)
    | WCount
    | WCheckFlag
    | WNotify
    | WFail
    | WExit                          // about to wake the flusher for the last time
    | WDone

  datatype Flusher =
    | FIdle
    | FStart
    | FSetFlag(target: nat)
    | FLock(target: nat)
    | FTest(target: nat)
    | FDoze(target: nat)
    | FAsleep(target: nat)
    | FClear(target: nat, result: bool)

  datatype Stopper = SIdle | SOwes | SDone

  /** `base` is what the file held when it was opened: a new header, or the journal of earlier lives. `offered` lists
      every record handed to the journal, `pushed` those the ring took, `done` how many of these are
      completely in the file, `flushed` the largest target a flush has confirmed, and
      `answer` what the last flush to return has returned. */
  datatype Journal = Journal(
    capacity: nat, ring: seq<Text>, file: Text, queued: nat, written: nat, running: bool, healthy: bool,
    lock: Lock, flag: bool, producer: Producer, writer: Writer, flusher: Flusher, stopper: Stopper,
    base: Text, offered: seq<Text>, pushed: seq<Text>, done: nat, flushed: nat, answer: Option<bool>)

  datatype Action =
    | Offer(record: Text) | ProducerStep
    | WriterStep | Write(n: nat) | WriteError | Spurious
    | Flush | FlusherStep | SpuriousFlush
    | Stop | StopNotify

  function WakeWriter(j: Journal): Journal { if j.writer.WAsleep? then j.(writer := WLock) else j }

  function WakeFlusher(j: Journal): Journal {
    if j.flusher.FAsleep? then j.(flusher := FLock(j.flusher.target)) else j
  }

  /** Under the mutex: mark failed and stopped, and wake both waiters. */
  function FailStop(j: Journal): Journal { WakeFlusher(WakeWriter(j.(healthy := false, running := false))) }

  function ProducerNext(j: Journal): Journal {
    match j.producer
    case PIdle => j
    case PCheckHealthy(r) => j.(producer := if j.healthy then PCheckRunning(r) else PIdle)
    case PCheckRunning(r) => j.(producer := if j.running then PPush(r) else PIdle)
    case PPush(r) =>
      if |j.ring| < j.capacity then j.(ring := j.ring + [r], pushed := j.pushed + [r], producer := POwes)
      else j.(producer := PFail)
    case POwes => if j.lock.Free? then WakeWriter(j.(queued := j.queued + 1, producer := PIdle)) else j
    case PFail => if j.lock.Free? then FailStop(j.(producer := PIdle)) else j
  }

  function WriterNext(j: Journal): Journal {
    match j.writer
    case WLock => if j.lock.Free? then j.(lock := WriterHolds, writer := WTest) else j
    case WTest => j.(writer := if j.ring != [] || !j.running then WDecide else WDoze)
    case WDecide => j.(lock := Free, writer := if j.ring == [] && !j.running then WExit else WPop)
    case WDoze => j.(lock := Free, writer := WAsleep)
    case WAsleep => j
    case WPop => if j.ring != [] then j.(ring := j.ring[1..], writer := WWriting(j.ring[0], 0)) else j.(writer := WFail)
    case WWriting(r, k) => if k == |r| then j.(writer := WCount, done := j.done + 1) else j
    case WCount => if j.lock.Free? then j.(written := j.written + 1, writer := WCheckFlag) else j
    case WCheckFlag => j.(writer := if j.flag then WNotify else WLock)
    case WNotify => if j.lock.Free? then WakeFlusher(j.(writer := WLock)) else j
    case WFail => if j.lock.Free? then FailStop(j.(writer := WExit)) else j
    case WExit => if j.lock.Free? then WakeFlusher(j.(writer := WDone)) else j
    case WDone => j
  }

  function FlusherNext(j: Journal): Journal {
    match j.flusher
    case FIdle => j
    case FStart =>
      if !j.lock.Free? then j
      else if j.written >= j.queued then
        j.(flusher := FIdle, answer := Some(j.healthy),
           flushed := if j.healthy && j.queued > j.flushed then j.queued else j.flushed)
      else if !j.healthy then j.(flusher := FIdle, answer := Some(false))
      else j.(flusher := FSetFlag(j.queued))
    case FSetFlag(t) => j.(flag := true, flusher := FLock(t))
    case FLock(t) => if j.lock.Free? then j.(lock := FlusherHolds, flusher := FTest(t)) else j
    case FTest(t) =>
      if j.written >= t || !j.healthy || !j.running then
        j.(lock := Free, flusher := FClear(t, j.healthy && j.written >= t))
      else j.(flusher := FDoze(t))
    case FDoze(t) => j.(lock := Free, flusher := FAsleep(t))
    case FAsleep(_) => j
    case FClear(t, result) =>
      j.(flag := false, flusher := FIdle, answer := Some(result),
         flushed := if result && t > j.flushed then t else j.flushed)
  }

  /** One atomic step; an action that is not possible does nothing. */
  function Step(j: Journal, a: Action): Journal {
    match a
    case Offer(r) => if j.producer.PIdle? then j.(offered := j.offered + [r], producer := PCheckHealthy(r)) else j
    case ProducerStep => ProducerNext(j)
    case WriterStep => WriterNext(j)
    case Write(n) =>
      if j.writer.WWriting? && n <= |j.writer.record| - j.writer.k then
        var w := j.writer;
        j.(file := j.file + w.record[w.k..w.k + n], writer := WWriting(w.record, w.k + n))
      else j
    case WriteError => if j.writer.WWriting? then j.(writer := WFail) else j
    case Spurious => WakeWriter(j)
    case Flush => if j.flusher.FIdle? then j.(flusher := FStart, answer := None) else j
    case FlusherStep => FlusherNext(j)
    case SpuriousFlush => WakeFlusher(j)
    case Stop => if j.stopper.SIdle? && j.lock.Free? then j.(running := false, stopper := SOwes) else j
    case StopNotify => if j.stopper.SOwes? && j.lock.Free? then WakeWriter(j.(stopper := SDone)) else j
  }

  function Run(j: Journal, actions: seq<Action>): Journal
    decreases |actions|
  {
    if actions == [] then j else Run(Step(j, actions[0]), actions[1..])
  }

  predicate Initial(j: Journal) {
    && j.ring == [] && j.file == j.base && j.queued == j.written == j.done == j.flushed == 0 && j.running && j.healthy
    && j.lock == Free && !j.flag && j.producer == PIdle && j.writer == WLock && j.flusher == FIdle && j.stopper == SIdle
    && j.offered == [] && j.pushed == [] && j.answer == None
  }

  // ----- what the file holds ------------------------------------------------------------------------------

  function Concat(rs: seq<Text>): Text { if rs == [] then [] else rs[0] + Concat(rs[1..]) }

  lemma {:induction false} ConcatAppend(a: seq<Text>, b: seq<Text>)
    ensures Concat(a + b) == Concat(a) + Concat(b)
  {
    if a == [] {
      assert a + b == b;
    } else {
      assert (a + b)[1..] == a[1..] + b;
      ConcatAppend(a[1..], b);
    }
  }

  lemma ConcatNext(rs: seq<Text>, n: nat)
    requires n < |rs|
    ensures Concat(rs[..n + 1]) == Concat(rs[..n]) + rs[n]
  {
    assert rs[..n + 1] == rs[..n] + [rs[n]];
    ConcatAppend(rs[..n], [rs[n]]);
    assert Concat([rs[n]]) == rs[n] + Concat([]);
  }

  lemma ConcatPrefix(rs: seq<Text>, n: nat)
    requires n <= |rs|
    ensures Concat(rs[..n]) <= Concat(rs)
  {
    assert rs == rs[..n] + rs[n..];
    ConcatAppend(rs[..n], rs[n..]);
  }

  /** The file holds the first `done` records, and perhaps part of the one in the writer's hands. */
  ghost predicate FileOk(w: Writer, ring: seq<Text>, base: Text, file: Text, pushed: seq<Text>, done: nat) {
    && done <= |pushed|
    && match w
       case WWriting(r, k) =>
         done < |pushed| && r == pushed[done] && k <= |r| && ring == pushed[done + 1..]
         && file == base + Concat(pushed[..done]) + r[..k]
       case WFail => Stopped(base, file, pushed, done)
       case WExit => Stopped(base, file, pushed, done)
       case WDone => Stopped(base, file, pushed, done)
       case _ => ring == pushed[done..] && file == base + Concat(pushed[..done])
  }

  /** The writer will not touch the file again; it may have left part of one record. */
  ghost predicate Stopped(base: Text, file: Text, pushed: seq<Text>, done: nat) {
    done <= |pushed| && base + Concat(pushed[..done]) <= file <= base + Concat(pushed)
  }

  predicate Leaving(w: Writer) { w.WFail? || w.WExit? || w.WDone? }

  predicate Waits(f: Flusher) { f.FSetFlag? || f.FLock? || f.FTest? || f.FDoze? || f.FAsleep? }

  /** Queued records trail pushes by one while the producer still owes a notification; written ones trail the file. */
  ghost predicate CountsOk(p: Producer, w: Writer, f: Flusher, queued: nat, written: nat, pushed: nat, done: nat,
                           flushed: nat) {
    && queued + (if p.POwes? then 1 else 0) == pushed
    && written + (if w.WCount? then 1 else 0) <= done
    && (written + (if w.WCount? then 1 else 0) == done || Leaving(w))
    && flushed <= done && (Waits(f) ==> f.target <= queued) && (f.FClear? && f.result ==> f.target <= done)
  }

  // ----- nothing is skipped -----------------------------------------------------------------------------

  /** Some record was offered and turned away. */
  predicate Dropped(p: Producer, offered: nat, pushed: nat) {
    offered > pushed + (if p.PIdle? || p.POwes? then 0 else 1)
  }

  ghost predicate OffersOk(p: Producer, offered: seq<Text>, pushed: seq<Text>, healthy: bool, running: bool) {
    var dropped := Dropped(p, |offered|, |pushed|);
    && pushed <= offered && (dropped ==> !healthy || !running)
    && (!p.PIdle? && !p.POwes? ==> |offered| > |pushed|)
    && ((p.PCheckHealthy? || p.PCheckRunning? || p.PPush?) && !dropped ==> p.record == offered[|pushed|])
    && (p.PCheckRunning? && dropped ==> !running)
    && (p.PPush? || p.PFail? ==> !dropped)
  }

  // ----- nobody sleeps through a wakeup ---------------------------------------------------------------------

  ghost predicate LocksOk(lock: Lock, flag: bool, w: Writer, f: Flusher) {
    && (lock.WriterHolds? <==> w.WTest? || w.WDecide? || w.WDoze?)
    && (lock.FlusherHolds? <==> f.FTest? || f.FDoze?)
    && (flag <==> f.FLock? || f.FTest? || f.FDoze? || f.FAsleep? || f.FClear?)
  }

  /** A sleeping writer with something to do is still owed a notification. */
  ghost predicate WriterAwake(p: Producer, w: Writer, s: Stopper, empty: bool, running: bool, healthy: bool) {
    && (w.WDoze? ==> running && (!empty ==> p.POwes?))
    && (w.WAsleep? ==> (!empty ==> p.POwes?) && (!running ==> s.SOwes?))
    && (w.WDecide? ==> !empty || !running)
    && (w.WPop? ==> !empty)
    && (w.WExit? || w.WDone? ==> !running)
    && (!healthy ==> !running)
  }

  /** A sleeping flusher whose target is reached is still owed a notification. */
  ghost predicate FlusherAwake(w: Writer, f: Flusher, written: nat, running: bool, healthy: bool) {
    && (f.FDoze? ==> written < f.target && healthy && running)
    && (f.FAsleep? ==> healthy && !w.WDone? && (written >= f.target ==> w.WCheckFlag? || w.WNotify? || w.WExit?))
  }

  ghost predicate Inv(j: Journal) {
    && FileOk(j.writer, j.ring, j.base, j.file, j.pushed, j.done)
    && CountsOk(j.producer, j.writer, j.flusher, j.queued, j.written, |j.pushed|, j.done, j.flushed)
    && OffersOk(j.producer, j.offered, j.pushed, j.healthy, j.running)
    && LocksOk(j.lock, j.flag, j.writer, j.flusher)
    && WriterAwake(j.producer, j.writer, j.stopper, j.ring == [], j.running, j.healthy)
    && FlusherAwake(j.writer, j.flusher, j.written, j.running, j.healthy)
  }

  // ----- preservation -----------------------------------------------------------------------------------------

  lemma WakeWriterKeeps(j: Journal)
    requires Inv(j)
    ensures Inv(WakeWriter(j))
  {
    hide Concat, Stopped, OffersOk;
  }

  lemma WakeFlusherKeeps(j: Journal)
    requires Inv(j)
    ensures Inv(WakeFlusher(j))
  {
    hide FileOk, OffersOk, WriterAwake;
  }

  lemma OfferKeeps(j: Journal, r: Text)
    requires Inv(j)
    ensures Inv(Step(j, Offer(r)))
  {
    hide FileOk, LocksOk, FlusherAwake;
  }

  /** Failing wakes both waiters, so neither can sleep through it. */
  lemma FailStopKeeps(j: Journal)
    requires FileOk(j.writer, j.ring, j.base, j.file, j.pushed, j.done)
    requires CountsOk(j.producer, j.writer, j.flusher, j.queued, j.written, |j.pushed|, j.done, j.flushed)
    requires OffersOk(j.producer, j.offered, j.pushed, false, false)
    requires LocksOk(j.lock, j.flag, j.writer, j.flusher) && j.lock.Free?
    requires j.writer.WPop? ==> j.ring != []
    ensures Inv(FailStop(j))
  {
    hide Concat, Stopped, OffersOk;
  }

  /** A push lengthens the history and the ring by the same record. */
  lemma PushFile(w: Writer, ring: seq<Text>, base: Text, file: Text, pushed: seq<Text>, done: nat, r: Text)
    requires FileOk(w, ring, base, file, pushed, done)
    ensures FileOk(w, ring + [r], base, file, pushed + [r], done)
  {
    hide Concat;
    ConcatAppend(pushed, [r]);
    assert (pushed + [r])[..done] == pushed[..done];
    if Leaving(w) { assert base + Concat(pushed) <= base + Concat(pushed + [r]); }
    else if w.WWriting? { assert (pushed + [r])[done + 1..] == pushed[done + 1..] + [r]; }
    else { assert (pushed + [r])[done..] == pushed[done..] + [r]; }
  }

  lemma ProducerKeeps(j: Journal)
    requires Inv(j)
    ensures Inv(ProducerNext(j))
  {
    hide Inv;
    match j.producer
    case PIdle =>
    case PCheckHealthy(_) => CheckKeeps(j);
    case PCheckRunning(_) => CheckKeeps(j);
    case PPush(_) => PushKeeps(j);
    case POwes => if j.lock.Free? { CountKeeps(j); }
    case PFail => if j.lock.Free? { ProducerFailKeeps(j); }
  }

  lemma CheckKeeps(j: Journal)
    requires Inv(j) && (j.producer.PCheckHealthy? || j.producer.PCheckRunning?)
    ensures Inv(ProducerNext(j))
  {
    hide FileOk, LocksOk, FlusherAwake;
  }

  lemma PushKeeps(j: Journal)
    requires Inv(j) && j.producer.PPush?
    ensures Inv(ProducerNext(j))
  {
    hide FileOk, LocksOk, FlusherAwake;
    PushFile(j.writer, j.ring, j.base, j.file, j.pushed, j.done, j.producer.record);
  }

  lemma CountKeeps(j: Journal)
    requires Inv(j) && j.producer.POwes? && j.lock.Free?
    ensures Inv(ProducerNext(j))
  {
    hide Concat, Stopped;
  }

  lemma ProducerFailKeeps(j: Journal)
    requires Inv(j) && j.producer.PFail? && j.lock.Free?
    ensures Inv(ProducerNext(j))
  {
    hide FileOk, LocksOk, FlusherAwake, FailStop;
    FailStopKeeps(j.(producer := PIdle));
  }

  lemma WriteKeeps(j: Journal, n: nat)
    requires Inv(j)
    ensures Inv(Step(j, Write(n)))
  {
    hide Concat, Stopped, OffersOk;
    if j.writer.WWriting? && n <= |j.writer.record| - j.writer.k {
      var r, k, c := j.writer.record, j.writer.k, j.base + Concat(j.pushed[..j.done]);
      assert r[..k + n] == r[..k] + r[k..k + n];
      assert c + r[..k] + r[k..k + n] == c + r[..k + n];
    }
  }

  /** A record in hand extends the file towards the whole history. */
  lemma PartialIsPrefix(base: Text, file: Text, pushed: seq<Text>, done: nat, k: nat)
    requires done < |pushed| && k <= |pushed[done]| && file == base + Concat(pushed[..done]) + pushed[done][..k]
    ensures Stopped(base, file, pushed, done)
  {
    ConcatNext(pushed, done);
    ConcatPrefix(pushed, done + 1);
    hide Concat;
    assert pushed[done][..k] <= pushed[done];
  }

  lemma WholeIsPrefix(base: Text, file: Text, pushed: seq<Text>, done: nat)
    requires done <= |pushed| && file == base + Concat(pushed[..done])
    ensures Stopped(base, file, pushed, done)
  {
    ConcatPrefix(pushed, done);
    hide Concat;
  }

  lemma WriteErrorKeeps(j: Journal)
    requires Inv(j)
    ensures Inv(Step(j, WriteError))
  {
    hide Concat, OffersOk;
    if j.writer.WWriting? { PartialIsPrefix(j.base, j.file, j.pushed, j.done, j.writer.k); }
  }

  lemma WroteKeeps(j: Journal)
    requires Inv(j) && j.writer.WWriting? && j.writer.k == |j.writer.record|
    ensures Inv(WriterNext(j))
  {
    hide Concat, Stopped, OffersOk;
    ConcatNext(j.pushed, j.done);
    assert j.writer.record[..j.writer.k] == j.writer.record;
  }

  lemma PopKeeps(j: Journal)
    requires Inv(j) && j.writer.WPop?
    ensures Inv(WriterNext(j))
  {}

  lemma WaitKeeps(j: Journal)
    requires Inv(j) && (j.writer.WLock? || j.writer.WTest? || j.writer.WDecide? || j.writer.WDoze?)
    ensures Inv(WriterNext(j))
  {
    hide Concat, Stopped, OffersOk;
    if j.writer.WDecide? { WholeIsPrefix(j.base, j.file, j.pushed, j.done); }
  }

  lemma NotifyKeeps(j: Journal)
    requires Inv(j) && (j.writer.WCount? || j.writer.WCheckFlag? || j.writer.WNotify? || j.writer.WExit?)
    ensures Inv(WriterNext(j))
  {
    hide Concat, Stopped, OffersOk;
  }

  lemma WriterFailKeeps(j: Journal)
    requires Inv(j) && j.writer.WFail? && j.lock.Free?
    ensures Inv(WriterNext(j))
  {
    hide Concat, Stopped, FailStop;
    FailStopKeeps(j.(writer := WExit));
  }

  lemma WriterKeeps(j: Journal)
    requires Inv(j)
    ensures Inv(WriterNext(j))
  {
    hide Inv;
    match j.writer
    case WLock => WaitKeeps(j);
    case WTest => WaitKeeps(j);
    case WDecide => WaitKeeps(j);
    case WDoze => WaitKeeps(j);
    case WAsleep =>
    case WPop => PopKeeps(j);
    case WWriting(r, k) => if k == |r| { WroteKeeps(j); }
    case WCount => NotifyKeeps(j);
    case WCheckFlag => NotifyKeeps(j);
    case WNotify => NotifyKeeps(j);
    case WFail => if j.lock.Free? { WriterFailKeeps(j); }
    case WExit => NotifyKeeps(j);
    case WDone =>
  }

  lemma FlusherKeeps(j: Journal)
    requires Inv(j)
    ensures Inv(FlusherNext(j))
  {
    hide FileOk, OffersOk;
  }

  lemma FlushKeeps(j: Journal)
    requires Inv(j)
    ensures Inv(Step(j, Flush))
  {
    hide FileOk, OffersOk, WriterAwake;
  }

  lemma StopKeeps(j: Journal)
    requires Inv(j)
    ensures Inv(Step(j, Stop))
  {
    hide FileOk, CountsOk;
  }

  lemma StopNotifyKeeps(j: Journal)
    requires Inv(j)
    ensures Inv(Step(j, StopNotify))
  {
    hide Concat, Stopped, OffersOk;
  }

  lemma StepKeeps(j: Journal, a: Action)
    requires Inv(j)
    ensures Inv(Step(j, a))
  {
    hide Inv;
    match a
    case Offer(r) => OfferKeeps(j, r);
    case ProducerStep => ProducerKeeps(j);
    case WriterStep => WriterKeeps(j);
    case Write(n) => WriteKeeps(j, n);
    case WriteError => WriteErrorKeeps(j);
    case Spurious => WakeWriterKeeps(j);
    case FlusherStep => FlusherKeeps(j);
    case SpuriousFlush => WakeFlusherKeeps(j);
    case Flush => FlushKeeps(j);
    case Stop => StopKeeps(j);
    case StopNotify => StopNotifyKeeps(j);
  }

  lemma {:induction false} RunKeeps(j: Journal, actions: seq<Action>)
    requires Inv(j)
    ensures Inv(Run(j, actions))
    decreases |actions|
  {
    hide Inv, Step;
    if actions != [] {
      StepKeeps(j, actions[0]);
      RunKeeps(Step(j, actions[0]), actions[1..]);
    }
  }

  // ----- what every interleaving guarantees ----------------------------------------------------------------------

  lemma InitialInv(j: Journal)
    requires Initial(j)
    ensures Inv(j)
  {}

  lemma FileIsPrefix(j: Journal)
    requires Inv(j)
    ensures Stopped(j.base, j.file, j.pushed, j.done)
  {
    if j.writer.WWriting? { PartialIsPrefix(j.base, j.file, j.pushed, j.done, j.writer.k); }
    else if !Leaving(j.writer) { WholeIsPrefix(j.base, j.file, j.pushed, j.done); }
  }

  lemma {:induction false} BaseFixed(j: Journal, actions: seq<Action>)
    ensures Run(j, actions).base == j.base
    decreases |actions|
  {
    hide Step;
    if actions != [] {
      BaseKept(j, actions[0]);
      BaseFixed(Step(j, actions[0]), actions[1..]);
    }
  }

  lemma BaseKept(j: Journal, a: Action)
    ensures Step(j, a).base == j.base
  {
    hide ProducerNext, WriterNext, FlusherNext;
    assert ProducerNext(j).base == j.base by { ProducerKeepsBase(j); }
    assert WriterNext(j).base == j.base by { WriterKeepsBase(j); }
    assert FlusherNext(j).base == j.base by { FlusherKeepsBase(j); }
  }

  lemma ProducerKeepsBase(j: Journal)
    ensures ProducerNext(j).base == j.base
  {}

  lemma WriterKeepsBase(j: Journal)
    ensures WriterNext(j).base == j.base
  {}

  lemma FlusherKeepsBase(j: Journal)
    ensures FlusherNext(j).base == j.base
  {}

  lemma ConcatMonotone(a: seq<Text>, b: seq<Text>)
    requires a <= b
    ensures Concat(a) <= Concat(b)
  {}

  /** In every interleaving of producer, writer, flusher, shutdown and I/O failure, the file is a byte prefix of
      what it held at first followed by the offered records in order: nothing is skipped, repeated or reordered. What
      a flush has confirmed is in the file. */
  lemma FileAlwaysPrefix(j0: Journal, actions: seq<Action>)
    requires Initial(j0)
    ensures var j := Run(j0, actions);
            && j.base == j0.base && j.pushed <= j.offered && j.file <= j.base + Concat(j.offered)
            && j.flushed <= |j.pushed| && j.base + Concat(j.pushed[..j.flushed]) <= j.file
  {
    InitialInv(j0);
    RunKeeps(j0, actions);
    BaseFixed(j0, actions);
    var j := Run(j0, actions);
    hide Run;
    FileIsPrefix(j);
    ConcatMonotone(j.pushed, j.offered);
    ConcatMonotone(j.pushed[..j.flushed], j.pushed[..j.done]);
    hide Concat;
  }

  /** A flush that is about to return true has every record queued when it began in the file, whether it finds them
      written at once or waits for them; such a return is what `flushed` counts. */
  lemma FlushCovers(j0: Journal, actions: seq<Action>)
    requires Initial(j0)
    ensures var j := Run(j0, actions);
            && (j.flusher.FStart? && j.lock.Free? && j.healthy && j.written >= j.queued ==>
                  && j.queued <= |j.pushed| && j.base + Concat(j.pushed[..j.queued]) <= j.file
                  && FlusherNext(j).flushed >= j.queued)
            && (j.flusher.FClear? && j.flusher.result ==>
                  && j.flusher.target <= |j.pushed| && j.base + Concat(j.pushed[..j.flusher.target]) <= j.file
                  && FlusherNext(j).flushed >= j.flusher.target)
  {
    InitialInv(j0);
    RunKeeps(j0, actions);
    var j := Run(j0, actions);
    hide Run;
    FileIsPrefix(j);
    forall n | 0 <= n <= j.done ensures j.base + Concat(j.pushed[..n]) <= j.file { CoveredByFile(j, n); }
    hide Concat, FileOk, OffersOk;
  }

  lemma CoveredByFile(j: Journal, n: nat)
    requires Stopped(j.base, j.file, j.pushed, j.done) && n <= j.done
    ensures j.base + Concat(j.pushed[..n]) <= j.file
  {
    ConcatMonotone(j.pushed[..n], j.pushed[..j.done]);
    hide Concat;
  }

  /** No lost wakeup: a parked writer with work, and a parked flusher whose target is reached, are still owed
      a notification by a thread that has not finished. */
  lemma NoLostWakeup(j0: Journal, actions: seq<Action>)
    requires Initial(j0)
    ensures var j := Run(j0, actions);
            && (j.writer.WAsleep? && j.ring != [] ==> j.producer.POwes?)
            && (j.writer.WAsleep? && !j.running ==> j.stopper.SOwes?)
            && (j.flusher.FAsleep? && j.written >= j.flusher.target ==>
                  j.writer.WCheckFlag? || j.writer.WNotify? || j.writer.WExit?)
            && (j.flusher.FAsleep? ==> j.healthy && !j.writer.WDone?)
  {
    InitialInv(j0);
    RunKeeps(j0, actions);
    hide Run, FileOk, CountsOk, OffersOk;
  }

  /** Some other thread can move, or bytes can be written: nobody waits for a notification that cannot come. */
  lemma ParkedFlusherNotStuck(j0: Journal, actions: seq<Action>)
    requires Initial(j0) && Run(j0, actions).flusher.FAsleep?
    ensures var j := Run(j0, actions);
            || WriterNext(j) != j || (j.writer.WWriting? && j.writer.k < |j.writer.record|)
            || ProducerNext(j) != j || (j.stopper.SOwes? && Step(j, StopNotify) != j)
  {
    InitialInv(j0);
    RunKeeps(j0, actions);
    var j := Run(j0, actions);
    hide Run, Concat, Stopped, OffersOk;
    assert !j.lock.FlusherHolds?;
    if j.writer.WAsleep? && !j.stopper.SOwes? {
      assert j.running;
      assert j.written == j.done && j.written < j.flusher.target <= j.queued <= |j.pushed|;
      assert j.ring != [];
    }
  }

  // ----- what a clean shutdown leaves -------------------------------------------------------------------------------

  /** A writer that has left a healthy journal wrote all it was given; only a producer that was past its check when the
      writer decided to leave can still have pushed one record, or be about to. */
  ghost predicate LeftClean(j: Journal) {
    (j.writer.WExit? || j.writer.WDone?) && j.healthy ==>
      && !j.running && j.done <= |j.pushed| && j.ring == j.pushed[j.done..]
      && j.file == j.base + Concat(j.pushed[..j.done])
      && |j.ring| + (if j.producer.PPush? then 1 else 0) <= 1
  }

  lemma ProducerLeavesClean(j: Journal)
    requires Inv(j) && LeftClean(j)
    ensures LeftClean(ProducerNext(j))
  {
    hide Inv, Concat;
    if j.producer.PPush? {
      var r := j.producer.record;
      assert j.done <= |j.pushed| ==> (j.pushed + [r])[..j.done] == j.pushed[..j.done];
      assert j.done <= |j.pushed| ==> (j.pushed + [r])[j.done..] == j.pushed[j.done..] + [r];
    }
  }

  lemma WriterLeavesClean(j: Journal)
    requires Inv(j) && LeftClean(j)
    ensures LeftClean(WriterNext(j))
  {
    hide Inv, Concat, WriterNext;
    if j.writer.WDecide? { DecidesClean(j); }
    else if j.writer.WFail? { FailsUnhealthy(j); }
    else if j.writer.WExit? { ExitsClean(j); }
    else if !j.writer.WDone? { StaysIn(j); }
    else { DoneStays(j); }
  }

  lemma FailsUnhealthy(j: Journal)
    requires j.writer.WFail?
    ensures var j' := WriterNext(j); j'.writer.WFail? || !j'.healthy
  {}

  lemma ExitsClean(j: Journal)
    requires LeftClean(j) && j.writer.WExit?
    ensures LeftClean(WriterNext(j))
  {
    hide Concat;
  }

  lemma StaysIn(j: Journal)
    requires !j.writer.WDecide? && !j.writer.WFail? && !j.writer.WExit? && !j.writer.WDone?
    ensures var w := WriterNext(j).writer; !w.WExit? && !w.WDone?
  {}

  lemma DoneStays(j: Journal)
    requires j.writer.WDone?
    ensures WriterNext(j) == j
  {}

  /** The writer decides to leave when it holds the mutex, the ring is empty and the journal is stopped. */
  lemma DecidesClean(j: Journal)
    requires Inv(j) && j.writer.WDecide?
    ensures LeftClean(WriterNext(j))
  {
    hide Concat, Stopped, OffersOk, CountsOk, FlusherAwake, LocksOk, WriterAwake;
  }

  lemma FlusherLeavesClean(j: Journal)
    requires LeftClean(j)
    ensures LeftClean(FlusherNext(j))
  {
    hide Concat, FlusherNext;
    FlusherMeets(j);
    FlusherKeepsRecords(j);
    FlusherKeepsFile(j);
  }

  /** The flusher touches neither the other threads nor the records. */
  lemma FlusherMeets(j: Journal)
    ensures var j' := FlusherNext(j);
            j'.writer == j.writer && j'.producer == j.producer && j'.healthy == j.healthy && j'.running == j.running
  {}

  lemma FlusherKeepsRecords(j: Journal)
    ensures var j' := FlusherNext(j); j'.ring == j.ring && j'.pushed == j.pushed && j'.done == j.done
  {}

  lemma FlusherKeepsFile(j: Journal)
    ensures var j' := FlusherNext(j); j'.base == j.base && j'.file == j.file
  {}

  lemma LeavesClean(j: Journal, a: Action)
    requires Inv(j) && LeftClean(j)
    ensures LeftClean(Step(j, a))
  {
    hide Inv, Concat, ProducerNext, WriterNext, FlusherNext;
    match a
    case ProducerStep => ProducerLeavesClean(j);
    case WriterStep => WriterLeavesClean(j);
    case FlusherStep => FlusherLeavesClean(j);
    case _ =>
  }

  lemma {:induction false} RunLeavesClean(j: Journal, actions: seq<Action>)
    requires Inv(j) && LeftClean(j)
    ensures LeftClean(Run(j, actions))
    decreases |actions|
  {
    hide Inv, Step, LeftClean;
    if actions != [] {
      StepKeeps(j, actions[0]);
      LeavesClean(j, actions[0]);
      RunLeavesClean(Step(j, actions[0]), actions[1..]);
    }
  }

  /** In every interleaving, once the writer has left a journal that has not failed, the file holds every record pushed,
      whole and in order, save at most one still in the ring, which a producer already past its check pushed after the
      writer had decided to leave. If the producer is idle and the ring empty, that is every record ever pushed. */
  lemma CleanShutdown(j0: Journal, actions: seq<Action>)
    requires Initial(j0)
    ensures var j := Run(j0, actions);
            j.writer.WDone? && j.healthy ==>
              && |j.ring| + (if j.producer.PPush? then 1 else 0) <= 1 && j.done <= |j.pushed|
              && j.pushed == j.pushed[..j.done] + j.ring && j.file == j.base + Concat(j.pushed[..j.done])
              && (j.ring == [] ==> j.file == j.base + Concat(j.pushed))
  {
    InitialInv(j0);
    RunLeavesClean(j0, actions);
    RunKeeps(j0, actions);
    var j := Run(j0, actions);
    hide Run, Inv, Concat;
    if j.writer.WDone? && j.healthy && j.ring == [] { assert j.pushed[..j.done] == j.pushed; }
  }

  // ----- nothing is dropped -----------------------------------------------------------------------------------------

  /** In every run of a journal that has neither failed nor been stopped, every record offered has been pushed, save the
      one in the producer's hands. */
  lemma NothingDropped(j0: Journal, actions: seq<Action>)
    requires Initial(j0) && Run(j0, actions).healthy && Run(j0, actions).running
    ensures var j := Run(j0, actions);
            && j.pushed <= j.offered
            && |j.offered| == |j.pushed| + (if j.producer.PIdle? || j.producer.POwes? then 0 else 1)
  {
    InitialInv(j0);
    RunKeeps(j0, actions);
    hide Run, FileOk, CountsOk, WriterAwake, FlusherAwake, LocksOk;
  }

  // ----- a flush can always return ------------------------------------------------------------------------------

  /** A step that brings a flush in progress closer to its return, without new records, failures or spurious wakeups. */
  function Helper(j: Journal): Action {
    if j.flusher.FAsleep? then
      match j.writer
      case WAsleep => if j.stopper.SOwes? then StopNotify else ProducerStep
      case WWriting(r, k) => if k < |r| then Write(|r| - k) else WriterStep
      case _ => WriterStep
    else if (j.flusher.FStart? || j.flusher.FLock?) && !j.lock.Free? then WriterStep
    else FlusherStep
  }

  /** Records the flusher still waits for. */
  function Awaited(j: Journal): nat {
    var target := if Waits(j.flusher) then j.flusher.target else j.queued;
    if j.flusher.FIdle? || j.flusher.FClear? || j.written >= target then 0 else target - j.written
  }

  function WriterRank(w: Writer): nat {
    match w
    case WCheckFlag => 10
    case WNotify => 9
    case WLock => 8
    case WTest => 7
    case WDecide => 6
    case WDoze => 6
    case WPop => 5
    case WAsleep => 5
    case WWriting(r, k) => if k < |r| then 4 else 3
    case WCount => 2
    case WFail => 2
    case WExit => 1
    case WDone => 0
  }

  function FlusherRank(f: Flusher): nat {
    match f
    case FStart => 6
    case FSetFlag(_) => 5
    case FLock(_) => 4
    case FTest(_) => 3
    case FDoze(_) => 2
    case FAsleep(_) => 1
    case FClear(_, _) => 1
    case FIdle => 0
  }

  function Owed(j: Journal): nat { (if j.producer.POwes? then 1 else 0) + (if j.stopper.SOwes? then 1 else 0) }

  /** Records awaited, then notifications owed, then the writer's place in its loop, then the flusher's. */
  function Distance(j: Journal): nat {
    1000 * Awaited(j) + 100 * Owed(j) + 7 * WriterRank(j.writer) + FlusherRank(j.flusher)
  }

  /** `j'` is closer than `j`, compared by records, then notifications, then the writer, then the flusher. */
  ghost predicate Closer(j': Journal, j: Journal) {
    || Awaited(j') < Awaited(j)
    || (Awaited(j') == Awaited(j)
        && (|| Owed(j') < Owed(j)
            || (Owed(j') == Owed(j)
                && (|| WriterRank(j'.writer) < WriterRank(j.writer)
                    || (j'.writer == j.writer && FlusherRank(j'.flusher) < FlusherRank(j.flusher))))))
  }

  lemma CloserDistance(j': Journal, j: Journal)
    requires Closer(j', j)
    ensures Distance(j') < Distance(j)
  {
    assert WriterRank(j'.writer) <= 10 && FlusherRank(j'.flusher) <= 6;
    hide Awaited, WriterRank, FlusherRank;
  }

  lemma FlusherProgress(j: Journal)
    requires !j.flusher.FIdle? && Helper(j) == FlusherStep
    ensures Closer(FlusherNext(j), j)
  {
    hide WriterRank;
    FlusherFrame(j);
    FlusherMoves(j);
    hide FlusherNext, Awaited, Helper, FlusherRank;
  }

  lemma FlusherFrame(j: Journal)
    ensures var j' := FlusherNext(j);
            j'.writer == j.writer && Owed(j') == Owed(j) && j'.queued == j.queued && j'.written == j.written
  {}

  lemma FlusherMoves(j: Journal)
    requires !j.flusher.FIdle? && Helper(j) == FlusherStep
    ensures Awaited(FlusherNext(j)) <= Awaited(j)
    ensures FlusherRank(FlusherNext(j).flusher) < FlusherRank(j.flusher)
  {}

  /** The writer gives up the mutex the flusher is waiting for. */
  lemma WriterYields(j: Journal)
    requires Inv(j) && (j.flusher.FStart? || j.flusher.FLock?) && !j.lock.Free?
    ensures Closer(WriterNext(j), j)
  {
    hide FileOk, OffersOk, CountsOk, WriterAwake, FlusherAwake, Inv;
    HeldByWriter(j);
    hide LocksOk;
  }

  lemma HeldByWriter(j: Journal)
    requires Inv(j) && !j.lock.Free? && !j.flusher.FTest? && !j.flusher.FDoze?
    ensures j.writer.WTest? || j.writer.WDecide? || j.writer.WDoze?
  {
    hide FileOk, OffersOk, CountsOk, WriterAwake, FlusherAwake;
  }

  lemma WriterFinishes(j: Journal)
    requires Inv(j) && j.flusher.FAsleep? && Helper(j) == WriterStep && j.writer.WWriting?
    ensures Closer(WriterNext(j), j)
  {
    hide Concat, OffersOk, CountsOk, WriterAwake, FlusherAwake, LocksOk;
  }

  lemma WriterWakes(j: Journal)
    requires Inv(j) && j.flusher.FAsleep?
             && (j.writer.WFail? || j.writer.WExit? || j.writer.WNotify? || j.writer.WDone?)
    ensures Closer(WriterNext(j), j)
  {
    hide FileOk, OffersOk, CountsOk, WriterAwake;
  }

  lemma WriterLoops(j: Journal)
    requires Inv(j) && j.flusher.FAsleep? && !j.writer.WAsleep? && !j.writer.WWriting?
    requires !(j.writer.WFail? || j.writer.WExit? || j.writer.WNotify? || j.writer.WDone?)
    ensures Closer(WriterNext(j), j)
  {
    hide FileOk, OffersOk, CountsOk;
  }

  lemma WriterProgress(j: Journal)
    requires Inv(j) && !j.flusher.FIdle? && Helper(j) == WriterStep
    ensures Closer(WriterNext(j), j)
  {
    hide Inv, Closer, WriterNext;
    if !j.flusher.FAsleep? { WriterYields(j); }
    else if j.writer.WWriting? { WriterFinishes(j); }
    else if j.writer.WFail? || j.writer.WExit? || j.writer.WNotify? || j.writer.WDone? { WriterWakes(j); }
    else { WriterLoops(j); }
  }

  /** A writer that sleeps while a flusher does is about to be woken. */
  lemma WakeProgress(j: Journal)
    requires Inv(j) && j.flusher.FAsleep? && j.writer.WAsleep?
    ensures Closer(Step(j, Helper(j)), j)
  {
    hide Concat, Stopped, OffersOk;
    if !j.stopper.SOwes? {
      assert j.running;
      assert j.written == j.done && j.written < j.flusher.target <= j.queued <= |j.pushed|;
      assert j.ring != [];
    }
    hide FileOk, CountsOk;
  }

  lemma HelperProgress(j: Journal)
    requires Inv(j) && !j.flusher.FIdle?
    ensures Inv(Step(j, Helper(j))) && Distance(Step(j, Helper(j))) < Distance(j)
  {
    StepKeeps(j, Helper(j));
    CloserStep(j);
    CloserDistance(Step(j, Helper(j)), j);
  }

  lemma CloserStep(j: Journal)
    requires Inv(j) && !j.flusher.FIdle?
    ensures Closer(Step(j, Helper(j)), j)
  {
    hide Inv, FlusherNext, WriterNext, ProducerNext, Closer;
    if j.flusher.FAsleep? && j.writer.WAsleep? { WakeProgress(j); }
    else if Helper(j) == FlusherStep { FlusherProgress(j); }
    else if Helper(j) == WriterStep { WriterProgress(j); }
    else { WriteProgress(j); }
  }

  lemma WriteProgress(j: Journal)
    requires j.flusher.FAsleep? && j.writer.WWriting? && j.writer.k < |j.writer.record|
    ensures Closer(Step(j, Helper(j)), j)
  {}

  /** The helper's steps, until the flush has returned. */
  function Helped(j: Journal, n: nat): Journal
    decreases n
  {
    if n == 0 || j.flusher.FIdle? then j else Helped(Step(j, Helper(j)), n - 1)
  }

  lemma {:induction false} HelpedReturns(j: Journal, n: nat)
    requires Inv(j) && Distance(j) <= n
    ensures Helped(j, n).flusher.FIdle?
    decreases n
  {
    hide Inv, Step, Helper, Distance;
    if !j.flusher.FIdle? {
      HelperProgress(j);
      HelpedReturns(Step(j, Helper(j)), n - 1);
    }
  }

  /** No flush can get stuck: from every reachable state, the steps of the threads that are already running, at most
      `Distance` of them and without any new record, bring it to its return. */
  lemma FlushCanReturn(j0: Journal, actions: seq<Action>)
    requires Initial(j0)
    ensures var j := Run(j0, actions); Helped(j, Distance(j)).flusher.FIdle?
  {
    InitialInv(j0);
    RunKeeps(j0, actions);
    HelpedReturns(Run(j0, actions), Distance(Run(j0, actions)));
  }
}
