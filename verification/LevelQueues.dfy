/** Price levels whose queues are the compacting queues over the shared pool: they do to the levels of plain slot
    sequences, which the order book is stated on, exactly what its storage primitives do. */
module LevelQueues {
  import opened Types
  import opened LevelStore
  import opened OrderPool
  import opened OrderQueue

  datatype QueueLevel = QueueLevel(price: int, queue: OrderQueue)

  /** Every queue of a side but the `i`-th. */
  ghost function Others(levels: seq<QueueLevel>, i: nat): set<OrderQueue> {
    set k | 0 <= k < |levels| && k != i :: levels[k].queue
  }

  ghost function Queues(levels: seq<QueueLevel>): set<OrderQueue> { set k | 0 <= k < |levels| :: levels[k].queue }

  lemma OtherQueue(levels: seq<QueueLevel>, i: nat, k: nat)
    requires k < |levels| && k != i
    ensures levels[k].queue in Others(levels, i)
  {}

  /** Without the `i`-th level, each level has the same other queues but that one. */
  lemma OthersWithout(levels: seq<QueueLevel>, i: nat, k: nat)
    requires i < |levels| && k < |levels| - 1
    ensures var n := if k < i then k else k + 1;
            Others(levels[..i] + levels[i + 1..], k) <= Others(levels, n)
  {
    var ls := levels[..i] + levels[i + 1..];
    var n := if k < i then k else k + 1;
    forall q | q in Others(ls, k) ensures q in Others(levels, n) {
      var m :| 0 <= m < |ls| && m != k && ls[m].queue == q;
      OtherQueue(levels, n, if m < i then m else m + 1);
    }
  }

  /** With a new level at `i`, each other level has at most its queue more. */
  lemma OthersWith(levels: seq<QueueLevel>, i: nat, l: QueueLevel, k: nat)
    requires i <= |levels| && k <= |levels|
    ensures var ls := levels[..i] + [l] + levels[i..];
            if k == i then Others(ls, k) <= Queues(levels)
            else Others(ls, k) <= Others(levels, if k < i then k else k - 1) + {l.queue}
  {
    var ls := levels[..i] + [l] + levels[i..];
    forall q | q in Others(ls, k)
      ensures if k == i then q in Queues(levels) else q in Others(levels, if k < i then k else k - 1) + {l.queue}
    {
      var m :| 0 <= m < |ls| && m != k && ls[m].queue == q;
      if m != i { assert ls[m] == levels[if m < i then m else m - 1]; }
    }
  }

  lemma LevelInserted(ls: seq<Level>, now: seq<Level>, i: nat, l: Level)
    requires i <= |ls| && |now| == |ls| + 1 && now[i] == l
    requires forall k :: 0 <= k < |ls| ==> now[if k < i then k else k + 1] == ls[k]
    ensures now == ls[..i] + [l] + ls[i..]
  {
    forall k | 0 <= k < |now| ensures now[k] == (ls[..i] + [l] + ls[i..])[k] {
      if k != i { assert now[k] == ls[if k < i then k else k - 1]; }
    }
  }

  lemma DisjointSwap(s: seq<nat>, t: seq<nat>)
    requires Disjoint(s, t)
    ensures Disjoint(t, s)
  {}

  class LevelQueues {
    const pool: OrderPool
    var levels: seq<QueueLevel>

    /** No slot is in two queues, `rest` being those of the other side. */
    ghost predicate Linked(rest: set<OrderQueue>)
      reads this, Queues(levels), rest, pool, pool.storage, pool.freeList, pool.inUse
    {
      && pool.Valid() && (forall q <- rest :: q.pool == pool && q.Valid())
      && (forall i :: 0 <= i < |levels| ==>
            && levels[i].queue.pool == pool && levels[i].queue.Valid()
            && levels[i].queue.Beside(Others(levels, i) + rest))
    }

    /** Moreover, no level is empty. */
    ghost predicate Valid(rest: set<OrderQueue>)
      reads this, Queues(levels), rest, pool, pool.storage, pool.freeList, pool.inUse
    {
      Linked(rest) && forall i :: 0 <= i < |levels| ==> levels[i].queue.Slots() != []
    }

    /** The levels of plain slot sequences these stand for. */
    ghost function Abstract(rest: set<OrderQueue>): (ls: seq<Level>)
      reads this, Queues(levels), rest, pool, pool.storage, pool.freeList, pool.inUse
      requires Linked(rest)
      ensures |ls| == |levels|
      ensures forall i :: 0 <= i < |ls| ==> ls[i] == Level(levels[i].price, levels[i].queue.Slots())
    {
      seq(|levels|, i requires 0 <= i < |levels| && levels[i].queue.Shape() reads this, Queues(levels) =>
            Level(levels[i].price, levels[i].queue.Slots()))
    }

    constructor (pool: OrderPool)
      requires pool.Valid()
      ensures this.pool == pool && Valid({}) && Abstract({}) == []
    {
      this.pool := pool;
      levels := [];
    }

    /** Takes the order at (i, j) out of its queue, popping it if `front`. */
    method EraseSlot(i: nat, j: nat, front: bool, ghost rest: set<OrderQueue>)
      requires Linked(rest) && i < |levels| && j < |levels[i].queue.Slots()| && (front ==> j == 0)
      modifies levels[i].queue, pool, pool.freeList, pool.inUse
      ensures Linked(rest)
      ensures levels[i].queue.Slots() == old(levels[i].queue.Slots())[..j] + old(levels[i].queue.Slots())[j + 1..]
      ensures forall k :: 0 <= k < |levels| && k != i ==> levels[k].queue.Slots() == old(levels[k].queue.Slots())
      ensures pool.used == old(pool.used) - {old(levels[i].queue.Slots())[j]}
      ensures forall q <- rest :: q.Slots() == old(q.Slots())
    {
      hide Owned, Populated, Disjoint, Window;
      var q := levels[i].queue;
      ghost var others := Others(levels, i) + rest;
      if front {
        ghost var s := q.Slots();
        assert s[..0] + s[1..] == s[1..];
        q.PopFront(others);
      } else {
        q.EraseAt(j, others);
      }
      forall k | 0 <= k < |levels| && k != i
        ensures levels[k].queue.pool == pool && levels[k].queue.Valid()
        ensures levels[k].queue.Slots() == old(levels[k].queue.Slots())
        ensures levels[k].queue.Beside(Others(levels, k) + rest)
      {
        OtherQueue(levels, i, k);
        var p := levels[k].queue;
        forall x | x in Others(levels, k) + rest
          ensures x != p && x.pool == pool && x.Valid() && Disjoint(p.Slots(), x.Slots())
        {
          if x == q { DisjointSwap(q.Slots(), p.Slots()); } else { assert x in others; }
        }
      }
    }

    /** Takes an emptied level out. */
    method DropLevel(i: nat, ghost rest: set<OrderQueue>)
      requires Linked(rest) && i < |levels|
      modifies this
      ensures levels == old(levels)[..i] + old(levels)[i + 1..] && Linked(rest)
    {
      hide Owned, Populated, Disjoint, Window;
      ghost var was := levels;
      levels := levels[..i] + levels[i + 1..];
      forall k | 0 <= k < |levels|
        ensures levels[k].queue.pool == pool && levels[k].queue.Valid()
        ensures levels[k].queue.Beside(Others(levels, k) + rest)
      {
        OthersWithout(was, i, k);
        assert levels[k] == was[if k < i then k else k + 1];
      }
    }

    /** The same on the levels these stand for. */
    method TakeSlot(i: nat, j: nat, front: bool, ghost rest: set<OrderQueue>)
      requires Linked(rest) && i < |levels| && j < |levels[i].queue.Slots()| && (front ==> j == 0)
      modifies levels[i].queue, pool, pool.freeList, pool.inUse
      ensures Linked(rest)
      ensures levels[i].queue.Slots() == old(Abstract(rest))[i].slots[..j] + old(Abstract(rest))[i].slots[j + 1..]
      ensures Abstract(rest) == old(Abstract(rest))[i := Level(levels[i].price, levels[i].queue.Slots())]
      ensures pool.used == old(pool.used) - {old(Abstract(rest))[i].slots[j]}
      ensures forall q <- rest :: q.Slots() == old(q.Slots())
    {
      hide Owned, Populated, Window;
      ghost var ls := Abstract(rest);
      EraseSlot(i, j, front, rest);
      assert Abstract(rest) == ls[i := Level(levels[i].price, levels[i].queue.Slots())];
    }

    method RemoveLevel(i: nat, ghost rest: set<OrderQueue>)
      requires Linked(rest) && i < |levels|
      modifies this
      ensures Linked(rest) && Abstract(rest) == old(Abstract(rest))[..i] + old(Abstract(rest))[i + 1..]
    {
      hide Linked, Owned, Populated, Window;
      ghost var ls := Abstract(rest);
      DropLevel(i, rest);
      assert Abstract(rest) == ls[..i] + ls[i + 1..];
    }

    /** The order at (i, j) leaves, and an emptied level with it. */
    method EraseAt(i: nat, j: nat, front: bool, ghost rest: set<OrderQueue>)
      requires Valid(rest) && i < |levels| && j < |levels[i].queue.Slots()| && (front ==> j == 0)
      modifies this, levels[i].queue, pool, pool.freeList, pool.inUse
      ensures Valid(rest) && Abstract(rest) == Erase(old(Abstract(rest)), i, j)
      ensures pool.used == old(pool.used) - {old(Abstract(rest))[i].slots[j]}
      ensures forall q <- rest :: q.Slots() == old(q.Slots())
    {
      hide Linked, Owned, Populated, Window;
      ghost var ls := Abstract(rest);
      NoneEmpty(rest);
      TakeSlot(i, j, front, rest);
      if levels[i].queue.head == levels[i].queue.tail {
        RemoveLevel(i, rest);
        assert Abstract(rest) == ls[..i] + ls[i + 1..];
      }
      assert forall k :: 0 <= k < |Abstract(rest)| ==> Abstract(rest)[k].slots != [];
      NoneEmpty(rest);
    }

    lemma NoneEmpty(rest: set<OrderQueue>)
      requires Linked(rest)
      ensures Valid(rest) <==> forall k :: 0 <= k < |Abstract(rest)| ==> Abstract(rest)[k].slots != []
    {
      hide Owned, Populated, Disjoint;
      var ls := Abstract(rest);
      assert forall k :: 0 <= k < |levels| ==> ls[k].slots == levels[k].queue.Slots();
    }

    // ----- resting ------------------------------------------------------------------------------------

    /** Appends to the queue of level `i`. */
    method PushSlot(i: nat, o: Order, ghost rest: set<OrderQueue>) returns (ok: bool, ghost slot: nat)
      requires Linked(rest) && i < |levels|
      modifies levels[i].queue, pool, pool.storage, pool.inUse
      ensures Linked(rest) && (ok <==> |old(pool.used)| < pool.storage.Length)
      ensures levels[i].queue.Slots() == old(levels[i].queue.Slots()) + (if ok then [slot] else [])
      ensures forall k :: 0 <= k < |levels| && k != i ==> levels[k].queue.Slots() == old(levels[k].queue.Slots())
      ensures ok ==> slot !in old(pool.used) && slot < pool.storage.Length
      ensures pool.used == old(pool.used) + (if ok then {slot} else {})
      ensures pool.storage[..] == if ok then old(pool.storage[..])[slot := o] else old(pool.storage[..])
      ensures forall q <- rest :: q.Slots() == old(q.Slots())
    {
      hide Owned, Populated, Disjoint, Window;
      var q := levels[i].queue;
      ghost var others := Others(levels, i) + rest;
      ok := q.PushBack(o, others);
      slot := if ok then q.Slots()[|q.Slots()| - 1] else 0;
      forall k | 0 <= k < |levels| && k != i
        ensures levels[k].queue.pool == pool && levels[k].queue.Valid()
        ensures levels[k].queue.Slots() == old(levels[k].queue.Slots())
        ensures levels[k].queue.Beside(Others(levels, k) + rest)
      {
        OtherQueue(levels, i, k);
        var p := levels[k].queue;
        forall x | x in Others(levels, k) + rest
          ensures x != p && x.pool == pool && x.Valid() && Disjoint(p.Slots(), x.Slots())
        {
          if x == q { DisjointSwap(q.Slots(), p.Slots()); } else { assert x in others; }
        }
      }
    }

    /** A new queue with one order, not yet among the levels; nothing stays behind when the pool is exhausted. */
    method NewQueue(o: Order, ghost rest: set<OrderQueue>) returns (q: OrderQueue, ok: bool)
      requires Linked(rest)
      modifies pool, pool.storage, pool.inUse
      ensures Linked(rest) && fresh(q) && q.pool == pool && q.Valid() && q.Beside(Queues(levels) + rest)
      ensures ok <==> |old(pool.used)| < pool.storage.Length
      ensures forall k :: 0 <= k < |levels| ==> levels[k].queue.Slots() == old(levels[k].queue.Slots())
      ensures forall p <- rest :: p.Slots() == old(p.Slots())
      ensures ok ==> var s := q.Slots();
                     && |s| == 1 && s[0] !in old(pool.used) && s[0] < pool.storage.Length
                     && pool.used == old(pool.used) + {s[0]} && pool.storage[..] == old(pool.storage[..])[s[0] := o]
      ensures !ok ==> pool.used == old(pool.used) && pool.storage[..] == old(pool.storage[..])
    {
      hide Owned, Populated, Window;
      q := new OrderQueue(pool);
      ghost var others := Queues(levels) + rest;
      assert q.Beside(others) by {
        forall p | p in Queues(levels) ensures p.pool == pool && p.Valid() {
          var k :| 0 <= k < |levels| && levels[k].queue == p;
        }
      }
      ok := q.PushBack(o, others);
      hide Disjoint;
      forall k | 0 <= k < |levels|
        ensures levels[k].queue.pool == pool && levels[k].queue.Valid()
        ensures levels[k].queue.Slots() == old(levels[k].queue.Slots())
        ensures levels[k].queue.Beside(Others(levels, k) + rest)
      {
        assert levels[k].queue in Queues(levels);
        forall x | x in Others(levels, k) + rest
          ensures x != levels[k].queue && x.pool == pool && x.Valid() && Disjoint(levels[k].queue.Slots(), x.Slots())
        {
          assert x in others;
        }
      }
    }

    /** Enters a queue as a level of its own. */
    method InsertLevel(i: nat, price: int, q: OrderQueue, ghost rest: set<OrderQueue>)
      requires Linked(rest) && i <= |levels|
      requires q.pool == pool && q.Valid() && q.Beside(Queues(levels) + rest)
      modifies this
      ensures levels == old(levels)[..i] + [QueueLevel(price, q)] + old(levels)[i..] && Linked(rest)
    {
      hide Owned, Populated, Disjoint, Window;
      ghost var was := levels;
      levels := levels[..i] + [QueueLevel(price, q)] + levels[i..];
      forall k | 0 <= k < |levels|
        ensures levels[k].queue.pool == pool && levels[k].queue.Valid()
        ensures levels[k].queue.Beside(Others(levels, k) + rest)
      {
        OthersWith(was, i, QueueLevel(price, q), k);
        if k != i {
          var n := if k < i then k else k - 1;
          assert levels[k] == was[n] && was[n].queue in Queues(was);
          DisjointSwap(q.Slots(), levels[k].queue.Slots());
        }
      }
    }

    method AddLevel(i: nat, price: int, q: OrderQueue, ghost rest: set<OrderQueue>)
      requires Linked(rest) && i <= |levels|
      requires q.pool == pool && q.Valid() && q.Beside(Queues(levels) + rest)
      modifies this
      ensures Linked(rest)
      ensures Abstract(rest) == old(Abstract(rest))[..i] + [Level(price, q.Slots())] + old(Abstract(rest))[i..]
    {
      hide Linked, Owned, Populated, Window, Disjoint, Others, Queues;
      ghost var ls, was := Abstract(rest), levels;
      InsertLevel(i, price, q, rest);
      ghost var now := Abstract(rest);
      forall k | 0 <= k < |ls| ensures now[if k < i then k else k + 1] == ls[k] {
        assert levels[if k < i then k else k + 1] == was[k];
      }
      LevelInserted(ls, now, i, Level(price, q.Slots()));
    }

    /** Rests the order at level `i`, behind everyone there or on a level of its own; on an exhausted pool nothing
        changes. */
    method Rest(i: nat, o: Order, ghost rest: set<OrderQueue>) returns (ok: bool, ghost slot: nat)
      requires Valid(rest) && i <= |levels|
      modifies this, Queues(levels), pool, pool.storage, pool.inUse
      ensures Valid(rest) && (ok <==> |old(pool.used)| < pool.storage.Length)
      ensures Abstract(rest) == if ok then Placed(old(Abstract(rest)), i, o.price, slot) else old(Abstract(rest))
      ensures ok ==> slot !in old(pool.used) && slot < pool.storage.Length
      ensures pool.used == old(pool.used) + (if ok then {slot} else {})
      ensures pool.storage[..] == if ok then old(pool.storage[..])[slot := o] else old(pool.storage[..])
      ensures forall q <- rest :: q.Slots() == old(q.Slots())
    {
      hide Owned, Populated, Window;
      if i < |levels| && levels[i].price == o.price {
        ok, slot := PushTo(i, o, rest);
      } else {
        ok, slot := OpenAt(i, o, rest);
      }
    }

    method PushTo(i: nat, o: Order, ghost rest: set<OrderQueue>) returns (ok: bool, ghost slot: nat)
      requires Valid(rest) && i < |levels|
      modifies levels[i].queue, pool, pool.storage, pool.inUse
      ensures Valid(rest) && (ok <==> |old(pool.used)| < pool.storage.Length)
      ensures Abstract(rest) == if ok then Push(old(Abstract(rest)), i, slot) else old(Abstract(rest))
      ensures ok ==> slot !in old(pool.used) && slot < pool.storage.Length
      ensures pool.used == old(pool.used) + (if ok then {slot} else {})
      ensures pool.storage[..] == if ok then old(pool.storage[..])[slot := o] else old(pool.storage[..])
      ensures forall q <- rest :: q.Slots() == old(q.Slots())
    {
      hide Linked, Owned, Populated, Window;
      ghost var ls := Abstract(rest);
      ok, slot := PushSlot(i, o, rest);
      ghost var added := if ok then [slot] else [];
      assert Abstract(rest)[i] == Level(ls[i].price, ls[i].slots + added);
      assert Abstract(rest) == ls[i := Level(ls[i].price, ls[i].slots + added)];
      if !ok { assert ls[i].slots + [] == ls[i].slots; }
    }

    method OpenAt(i: nat, o: Order, ghost rest: set<OrderQueue>) returns (ok: bool, ghost slot: nat)
      requires Valid(rest) && i <= |levels|
      modifies this, pool, pool.storage, pool.inUse
      ensures Valid(rest) && (ok <==> |old(pool.used)| < pool.storage.Length)
      ensures Abstract(rest) == if ok then Open(old(Abstract(rest)), i, o.price, slot) else old(Abstract(rest))
      ensures ok ==> slot !in old(pool.used) && slot < pool.storage.Length
      ensures pool.used == old(pool.used) + (if ok then {slot} else {})
      ensures pool.storage[..] == if ok then old(pool.storage[..])[slot := o] else old(pool.storage[..])
      ensures forall q <- rest :: q.Slots() == old(q.Slots())
    {
      hide Linked, Owned, Populated, Window;
      ghost var ls := Abstract(rest);
      NoneEmpty(rest);
      var q;
      q, ok := NewQueue(o, rest);
      slot := 0;
      assert Abstract(rest) == ls;
      if ok {
        slot := q.Slots()[0];
        assert q.Slots() == [slot];
        AddLevel(i, o.price, q, rest);
      }
      assert forall k :: 0 <= k < |Abstract(rest)| ==> Abstract(rest)[k].slots != [];
      NoneEmpty(rest);
    }
  }
}
