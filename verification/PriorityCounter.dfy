/** The priority counter's compare-exchange loops, as any number of threads run them. */
module PriorityCounter {
  import opened Engine

  /** Where a thread stands: not in a loop, or in one with the value it last loaded. */
  datatype Thread = Outside | Claiming(current: nat) | Seeding(next: nat, current: nat)

  /** `handed` lists the priorities handed out, in the order of the successful exchanges; `refused` tells whether some
      claim was refused. */
  datatype Counter = Counter(value: nat, threads: seq<Thread>, handed: seq<nat>, refused: bool)

  /** A weak exchange may fail although the value matches. */
  datatype Action = Claim(t: nat) | Seed(t: nat, next: nat) | Loop(t: nat, spurious: bool)

  function At(c: Counter, t: nat, s: Thread): Counter
    requires t < |c.threads|
  {
    c.(threads := c.threads[t := s])
  }

  function Step(c: Counter, a: Action): Counter {
    if a.t >= |c.threads| then c
    else match (a, c.threads[a.t])
      case (Claim(t), Outside) => At(c, t, Claiming(c.value))
      case (Seed(t, next), Outside) => if next <= MAX_PRIORITY then At(c, t, Seeding(next, c.value)) else c
      case (Loop(t, spurious), Claiming(current)) =>
        if current == MAX_PRIORITY then At(c, t, Outside).(refused := true)
        else if !spurious && c.value == current then
          At(c, t, Outside).(value := current + 1, handed := c.handed + [current])
        else At(c, t, Claiming(c.value))
      case (Loop(t, spurious), Seeding(next, current)) =>
        if next <= current then At(c, t, Outside)
        else if !spurious && c.value == current then At(c, t, Outside).(value := next)
        else At(c, t, Seeding(next, c.value))
      case _ => c
  }

  function Run(c: Counter, actions: seq<Action>): Counter
    decreases |actions|
  {
    if actions == [] then c else Run(Step(c, actions[0]), actions[1..])
  }

  predicate Initial(c: Counter) {
    && c.value <= MAX_PRIORITY && c.handed == [] && !c.refused
    && forall i :: 0 <= i < |c.threads| ==> c.threads[i].Outside?
  }

  ghost predicate Inv(c: Counter) {
    && c.value <= MAX_PRIORITY
    && (forall i :: 0 <= i < |c.threads| ==> c.threads[i].Outside? || c.threads[i].current <= c.value)
    && (forall i :: 0 <= i < |c.threads| && c.threads[i].Seeding? ==> c.threads[i].next <= MAX_PRIORITY)
    && (forall i :: 0 <= i < |c.handed| ==> c.handed[i] < c.value)
    && (forall i, j :: 0 <= i < j < |c.handed| ==> c.handed[i] < c.handed[j])
    && (c.refused ==> c.value == MAX_PRIORITY)
  }

  lemma StepKeeps(c: Counter, a: Action)
    requires Inv(c)
    ensures Inv(Step(c, a)) && c.value <= Step(c, a).value && c.handed <= Step(c, a).handed
  {}

  lemma {:induction false} RunKeeps(c: Counter, actions: seq<Action>)
    requires Inv(c)
    ensures Inv(Run(c, actions)) && c.value <= Run(c, actions).value
    decreases |actions|
  {
    hide Step, Inv;
    if actions != [] {
      StepKeeps(c, actions[0]);
      RunKeeps(Step(c, actions[0]), actions[1..]);
    }
  }

  /** However the loops interleave, claims and seeds alike: priorities are handed out in strictly increasing order, so
      each at most once, from the initial value on and never the maximum; the counter never moves backwards; and a
      claim is refused only when nothing is left. */
  lemma NeverTwice(c0: Counter, actions: seq<Action>)
    requires Initial(c0)
    ensures var c := Run(c0, actions);
            && (forall i, j :: 0 <= i < j < |c.handed| ==> c.handed[i] < c.handed[j])
            && (forall i :: 0 <= i < |c.handed| ==> c0.value <= c.handed[i] < c.value <= MAX_PRIORITY)
            && c0.value <= c.value && (c.refused ==> c.value == MAX_PRIORITY)
  {
    RunKeeps(c0, actions);
    HandedAbove(c0, c0.value, actions);
  }

  lemma {:induction false} HandedAbove(c: Counter, low: nat, actions: seq<Action>)
    requires Inv(c) && low <= c.value && forall i :: 0 <= i < |c.handed| ==> low <= c.handed[i]
    ensures forall i :: 0 <= i < |Run(c, actions).handed| ==> low <= Run(c, actions).handed[i]
    decreases |actions|
  {
    if actions != [] {
      StepKeeps(c, actions[0]);
      HandedAbove(Step(c, actions[0]), low, actions[1..]);
    }
  }

  /** A seed, successful or not, ends with the counter at or beyond the seeded value. */
  lemma SeedReached(c0: Counter, actions: seq<Action>, t: nat, spurious: bool)
    requires Initial(c0) && t < |Run(c0, actions).threads| && Run(c0, actions).threads[t].Seeding?
    ensures var c := Run(c0, actions);
            var c' := Step(c, Loop(t, spurious));
            c'.threads[t].Outside? ==> c.threads[t].next <= c'.value
  {
    RunKeeps(c0, actions);
  }

  /** Alone, and after any number of spurious failures, a claim is the single step the engine model takes. */
  lemma {:induction false} AloneIsAtomic(c: Counter, t: nat, failures: nat)
    requires t < |c.threads| && c.threads[t] == Claiming(c.value) && c.value < MAX_PRIORITY
    ensures Run(c, seq(failures, _ => Loop(t, true)) + [Loop(t, false)])
            == At(c, t, Outside).(value := c.value + 1, handed := c.handed + [c.value])
    decreases failures
  {
    var actions := seq(failures, _ => Loop(t, true)) + [Loop(t, false)];
    if failures == 0 {
      assert actions == [Loop(t, false)] && actions[1..] == [];
    } else {
      assert actions[1..] == seq(failures - 1, _ => Loop(t, true)) + [Loop(t, false)];
      assert actions[0] == Loop(t, true) && c.threads[t := c.threads[t]] == c.threads;
      assert Step(c, actions[0]) == c;
      AloneIsAtomic(c, t, failures - 1);
    }
  }

  /** So is a seed: it moves the counter up to its value, or leaves a counter already there or beyond. */
  lemma {:induction false} SeedAloneIsAtomic(c: Counter, t: nat, next: nat, failures: nat)
    requires t < |c.threads| && c.threads[t] == Seeding(next, c.value)
    ensures var z := Run(c, seq(failures, _ => Loop(t, true)) + [Loop(t, false)]);
            z == At(c, t, Outside).(value := if next > c.value then next else c.value)
    decreases failures
  {
    var actions := seq(failures, _ => Loop(t, true)) + [Loop(t, false)];
    if failures == 0 {
      assert actions == [Loop(t, false)] && actions[1..] == [];
    } else {
      assert actions[1..] == seq(failures - 1, _ => Loop(t, true)) + [Loop(t, false)];
      assert actions[0] == Loop(t, true) && c.threads[t := c.threads[t]] == c.threads;
      if next > c.value {
        assert Step(c, actions[0]) == c;
        SeedAloneIsAtomic(c, t, next, failures - 1);
      } else {
        OutsideStays(At(c, t, Outside), t, actions[1..]);
      }
    }
  }

  lemma {:induction false} OutsideStays(c: Counter, t: nat, actions: seq<Action>)
    requires t < |c.threads| && c.threads[t].Outside? && forall a <- actions :: a.Loop? && a.t == t
    ensures Run(c, actions) == c
    decreases |actions|
  {
    if actions != [] {
      assert actions[0] in actions;
      OutsideStays(c, t, actions[1..]);
    }
  }
}
