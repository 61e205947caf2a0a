/** The journal's bounded queue is the wrapping ring: each of its atomic operations is one step of the ring, and every
    other step of the ring leaves it as it is. */
module RingQueue {
  import opened Bytes
  import R = JournalRing
  import J = Journal

  /** The records pushed and not yet popped. */
  function Pending(s: R.Ring): seq<seq<Byte>>
    requires |s.popped| <= |s.pushed|
  {
    s.pushed[|s.popped|..]
  }

  /** The ring holds what the journal's queue holds. */
  ghost predicate Same(s: R.Ring, j: J.Journal) {
    R.Inv(s) && |s.popped| <= |s.pushed| && j.ring == Pending(s) && j.capacity == R.Capacity(s)
  }

  /** What a step of the ring does to its queue. */
  datatype Effect = Nothing | Enqueues(record: seq<Byte>) | Dequeues(record: seq<Byte>)

  function EffectOf(s: R.Ring, a: R.Action): Effect {
    match (a, s.producer, s.consumer)
    case (PublishHead, Sized(record, _), _) => Enqueues(record)
    case (PublishTail, _, Reading(_, size, view)) => if |view| == size then Dequeues(view) else Nothing
    case _ => Nothing
  }

  lemma InvOrder(s: R.Ring)
    requires R.Inv(s)
    ensures |s.popped| <= |s.pushed| && |Pending(s)| <= R.Capacity(s)
  {
    hide R.Intact, R.ProducerOk, R.ConsumerOk, R.And, R.Pow2;
  }

  lemma HistoryOf(s: R.Ring, a: R.Action)
    requires R.Inv(s)
    ensures var s' := R.Step(s, a);
            && s'.k == s.k
            && match EffectOf(s, a)
               case Nothing => s'.pushed == s.pushed && s'.popped == s.popped
               case Enqueues(r) => s'.pushed == s.pushed + [r] && s'.popped == s.popped
               case Dequeues(r) => s'.pushed == s.pushed && s'.popped == s.popped + [r]
  {
    hide R.And, R.Pow2, R.Intact, R.Geometry, R.ProducerOk;
    if a.ReadSize? && s.consumer.Claimed? { R.SizeAlwaysValid(s); }
  }

  lemma EffectsFit(s: R.Ring, a: R.Action)
    requires R.Inv(s)
    ensures |s.popped| <= |s.pushed|
    ensures EffectOf(s, a).Enqueues? ==> |Pending(s)| < R.Capacity(s)
    ensures EffectOf(s, a).Dequeues? ==> Pending(s) != [] && Pending(s)[0] == EffectOf(s, a).record
  {
    InvOrder(s);
    hide R.And, R.Pow2, R.Intact;
    if EffectOf(s, a).Dequeues? {
      var r := s.pushed[|s.popped|];
      assert r[..|r|] == r;
    }
  }

  /** In every reachable state, a step of the ring appends one record to a queue that is not full, removes the head of
      one that is not empty, or leaves the queue alone. */
  lemma StepIsQueue(s0: R.Ring, actions: seq<R.Action>, a: R.Action)
    requires R.Initial(s0)
    ensures var s := R.Run(s0, actions);
            var s' := R.Step(s, a);
            && R.Inv(s) && |s.popped| <= |s.pushed| && |s'.popped| <= |s'.pushed|
            && match EffectOf(s, a)
               case Nothing => Pending(s') == Pending(s)
               case Enqueues(r) => |Pending(s)| < R.Capacity(s) && Pending(s') == Pending(s) + [r]
               case Dequeues(r) => Pending(s) != [] && r == Pending(s)[0] && Pending(s') == Pending(s)[1..]
  {
    hide R.Step, R.Inv, R.Initial, EffectOf;
    InitialInv(s0);
    R.RunKeeps(s0, actions);
    var s := R.Run(s0, actions);
    HistoryOf(s, a);
    EffectsFit(s, a);
  }

  lemma InitialInv(s: R.Ring)
    requires R.Initial(s)
    ensures R.Inv(s)
  {}

  // ----- the journal's operations ------------------------------------------------------------------------------

  /** `tryPush` as the journal's producer sees it: refused at the full test exactly when the queue is full, and
      otherwise done when the head is published. */
  lemma PushRefines(s: R.Ring, j: J.Journal, record: seq<Byte>)
    requires Same(s, j) && j.producer == J.PPush(record)
    ensures s.producer.Loaded? ==>
              var s' := R.Step(s, R.CheckFull);
              if s'.producer.Idle? then J.ProducerNext(j).producer.PFail? && Same(s', J.ProducerNext(j))
              else |j.ring| < j.capacity && Same(s', j)
    ensures s.producer.Sized? && s.producer.record == record ==>
              J.ProducerNext(j).producer.POwes? && Same(R.Step(s, R.PublishHead), J.ProducerNext(j))
  {
    hide R.Inv, J.ProducerNext, EffectOf;
    InvOrder(s);
    PushOutcome(j, record);
    if s.producer.Loaded? {
      R.StepKeeps(s, R.CheckFull);
      R.FullIsFull(s);
      HistoryOf(s, R.CheckFull);
      NothingYet(s);
    }
    if s.producer.Sized? && s.producer.record == record {
      R.StepKeeps(s, R.PublishHead);
      HistoryOf(s, R.PublishHead);
      EffectsFit(s, R.PublishHead);
      Publishes(s);
    }
  }

  lemma NothingYet(s: R.Ring)
    ensures EffectOf(s, R.CheckFull) == Nothing && EffectOf(s, R.CheckEmpty) == Nothing
  {}

  lemma Publishes(s: R.Ring)
    requires s.producer.Sized?
    ensures EffectOf(s, R.PublishHead) == Enqueues(s.producer.record)
  {}

  lemma PushOutcome(j: J.Journal, r: seq<Byte>)
    requires j.producer == J.PPush(r)
    ensures var j' := J.ProducerNext(j);
            && j'.capacity == j.capacity
            && if |j.ring| < j.capacity then j'.producer.POwes? && j'.ring == j.ring + [r]
               else j'.producer.PFail? && j'.ring == j.ring
  {}

  /** `tryPop` as the journal's writer sees it: refused at the empty test exactly when the queue is empty, and otherwise
      the head of the queue, done when the tail is published. */
  lemma PopRefines(s: R.Ring, j: J.Journal)
    requires Same(s, j) && j.writer.WPop?
    ensures s.consumer.Peeked? ==>
              var s' := R.Step(s, R.CheckEmpty);
              if s'.consumer.Waiting? then J.WriterNext(j).writer.WFail? && Same(s', J.WriterNext(j))
              else j.ring != [] && Same(s', j)
    ensures s.consumer.Reading? && |s.consumer.view| == s.consumer.size ==>
              && J.WriterNext(j).writer == J.WWriting(s.consumer.view, 0)
              && Same(R.Step(s, R.PublishTail), J.WriterNext(j))
  {
    hide R.Inv, J.WriterNext, EffectOf;
    InvOrder(s);
    PopOutcome(j);
    if s.consumer.Peeked? {
      R.StepKeeps(s, R.CheckEmpty);
      R.EmptyIsEmpty(s);
      HistoryOf(s, R.CheckEmpty);
      NothingYet(s);
    }
    if s.consumer.Reading? && |s.consumer.view| == s.consumer.size {
      R.StepKeeps(s, R.PublishTail);
      HistoryOf(s, R.PublishTail);
      EffectsFit(s, R.PublishTail);
      Returns(s);
    }
  }

  lemma Returns(s: R.Ring)
    requires s.consumer.Reading? && |s.consumer.view| == s.consumer.size
    ensures EffectOf(s, R.PublishTail) == Dequeues(s.consumer.view)
  {}

  lemma PopOutcome(j: J.Journal)
    requires j.writer.WPop?
    ensures var j' := J.WriterNext(j);
            && j'.capacity == j.capacity
            && if j.ring != [] then j'.writer == J.WWriting(j.ring[0], 0) && j'.ring == j.ring[1..]
               else j'.writer.WFail? && j'.ring == j.ring
  {}

  /** The emptiness test of the writer's wait condition compares the two counters. */
  lemma EmptyTest(s: R.Ring, j: J.Journal)
    requires Same(s, j)
    ensures s.head == s.tail <==> j.ring == []
  {
    InvOrder(s);
    hide R.Intact, R.ProducerOk, R.ConsumerOk, R.And, R.Pow2;
    R.WrapInvisible(0, s.k);
    R.WrappedDistance(|s.pushed|, |s.popped|);
  }
}
