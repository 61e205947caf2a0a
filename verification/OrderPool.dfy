/** The fixed pool of order slots and the queues that draw on it. */
module OrderPool {
  import opened Types

  datatype Release = Released | OutOfRange | DoubleFree

  class OrderPool {
    const storage: array<Order>
    const freeList: array<nat>
    const inUse: array<bool>
    var head: nat
    ghost var used: set<nat>

    ghost predicate Valid()
      reads this, storage, freeList, inUse
    {
      && storage.Length == freeList.Length == inUse.Length
      && |used| == head <= storage.Length
      && (forall i :: 0 <= i < inUse.Length ==> (inUse[i] <==> i in used))
      && (forall s <- used :: s < storage.Length)
      && (forall i :: head <= i < freeList.Length ==> freeList[i] < storage.Length && freeList[i] !in used)
      && (forall i, j :: head <= i < j < freeList.Length ==> freeList[i] != freeList[j])
    }

    constructor (capacity: nat)
      ensures Valid() && fresh(storage) && fresh(freeList) && fresh(inUse)
      ensures storage.Length == capacity && used == {}
    {
      storage := new Order[capacity];
      freeList := new nat[capacity];
      inUse := new bool[capacity];
      head := 0;
      used := {};
      new;
      for i := 0 to capacity
        invariant head == 0 && used == {}
        invariant forall k :: 0 <= k < i ==> freeList[k] == capacity - 1 - k && !inUse[k]
      {
        freeList[i] := capacity - 1 - i;
        inUse[i] := false;
      }
    }

    /** Hands out a slot nobody holds; refuses exactly when all are held. */
    method Allocate() returns (slot: Option<nat>)
      requires Valid()
      modifies this, inUse
      ensures Valid()
      ensures slot.Some? <==> |old(used)| < storage.Length
      ensures slot.Some? ==> slot.value < storage.Length && slot.value !in old(used) && used == old(used) + {slot.value}
      ensures slot.None? ==> used == old(used)
    {
      if head >= freeList.Length {
        return None;
      }
      var idx := freeList[head];
      head := head + 1;
      inUse[idx] := true;
      used := used + {idx};
      return Some(idx);
    }

    /** Allocates a slot and writes the order there. */
    method Store(o: Order) returns (slot: Option<nat>)
      requires Valid()
      modifies this, storage, inUse
      ensures Valid()
      ensures slot.Some? <==> |old(used)| < storage.Length
      ensures slot.Some? ==> slot.value < storage.Length && slot.value !in old(used) && used == old(used) + {slot.value}
      ensures slot.Some? ==> storage[..] == old(storage[..])[slot.value := o]
      ensures slot.None? ==> used == old(used) && storage[..] == old(storage[..])
    {
      slot := Allocate();
      if slot.Some? {
        storage[slot.value] := o;
      }
    }

    /** Succeeds on every slot in use; anything else is reported and changes nothing. */
    method Deallocate(slot: nat) returns (r: Release)
      requires Valid()
      modifies this, freeList, inUse
      ensures Valid()
      ensures r.Released? <==> slot in old(used)
      ensures r.OutOfRange? <==> slot >= storage.Length
      ensures used == old(used) - {slot}
    {
      if slot >= storage.Length {
        return OutOfRange;
      }
      if !inUse[slot] {
        return DoubleFree;
      }
      assert {slot} <= used && |used - {slot}| == |used| - 1;
      inUse[slot] := false;
      head := head - 1;
      freeList[head] := slot;
      used := used - {slot};
      return Released;
    }

    method Available() returns (n: nat)
      requires Valid()
      ensures n == storage.Length - |used|
    {
      n := freeList.Length - head;
    }
  }
}

/** A vector with a moving head, refining a plain sequence of slots. */
module OrderQueue {
  import opened Types
  import opened OrderPool

  predicate Populated(p: seq<Option<nat>>, head: nat, tail: nat) {
    head <= tail <= |p| && forall i :: head <= i < tail ==> p[i].Some?
  }

  /** The slots between head and tail, front first. */
  function Window(p: seq<Option<nat>>, head: nat, tail: nat): (s: seq<nat>)
    requires Populated(p, head, tail)
    ensures |s| == tail - head && forall i :: 0 <= i < |s| ==> s[i] == p[head + i].value
  {
    seq(tail - head, i requires 0 <= i < tail - head => p[head + i].value)
  }

  /** Slots in use, no slot twice. */
  ghost predicate Owned(s: seq<nat>, used: set<nat>) {
    (forall i :: 0 <= i < |s| ==> s[i] in used) && (forall i, j :: 0 <= i < j < |s| ==> s[i] != s[j])
  }

  lemma OwnedWith(s: seq<nat>, used: set<nat>, slot: nat)
    requires Owned(s, used) && slot !in used
    ensures Owned(s + [slot], used + {slot})
  {}

  lemma OwnedWithout(s: seq<nat>, used: set<nat>, k: nat)
    requires Owned(s, used) && k < |s|
    ensures s[k] in used && Owned(s[..k] + s[k + 1..], used - {s[k]})
  {}

  /** What another queue owns is not affected by slots that are not its own. */
  lemma OwnedBeside(s: seq<nat>, used: set<nat>, slot: nat)
    requires Owned(s, used) && slot !in s
    ensures Owned(s, used - {slot}) && Owned(s, used + {slot})
  {}

  lemma OwnedApart(s: seq<nat>, used: set<nat>, slot: nat)
    requires Owned(s, used) && slot !in used
    ensures slot !in s
  {}

  ghost predicate Disjoint(s: seq<nat>, t: seq<nat>) { forall x <- s :: x !in t }

  lemma DisjointWithout(s: seq<nat>, k: nat, t: seq<nat>)
    requires k < |s| && Disjoint(s, t)
    ensures s[k] !in t && Disjoint(s[..k] + s[k + 1..], t)
  {}

  /** `p` with the places from `g` to `j - 2` taken over by their successors. */
  ghost predicate Shifted(p: seq<Option<nat>>, g: nat, j: nat, p': seq<Option<nat>>) {
    && |p'| == |p| && 0 < j <= |p|
    && forall i :: 0 <= i < |p| ==> p'[i] == p[if g <= i < j - 1 then i + 1 else i]
  }

  lemma ShiftStep(p: seq<Option<nat>>, g: nat, j: nat, p': seq<Option<nat>>)
    requires Shifted(p, g, j, p') && g < j < |p|
    ensures Shifted(p, g, j + 1, p'[j - 1 := p'[j]])
  {}

  lemma GapClosed(p: seq<Option<nat>>, head: nat, tail: nat, k: nat, p': seq<Option<nat>>)
    requires Populated(p, head, tail) && k < tail - head && Shifted(p, head + k, tail, p')
    ensures tail - 1 < |p'|
    ensures var p2 := p'[tail - 1 := None];
            && Populated(p2, head, tail - 1)
            && var s := Window(p, head, tail); Window(p2, head, tail - 1) == s[..k] + s[k + 1..]
  {}

  class OrderQueue {
    const pool: OrderPool
    var pointers: seq<Option<nat>>
    var head: nat
    var tail: nat

    ghost predicate Shape()
      reads this
    {
      Populated(pointers, head, tail)
    }

    ghost function Slots(): seq<nat>
      reads this
      requires Shape()
    {
      Window(pointers, head, tail)
    }

    ghost predicate Valid()
      reads this, pool, pool.storage, pool.freeList, pool.inUse
    {
      Shape() && pool.Valid() && Owned(Slots(), pool.used)
    }

    /** Other queues over the same pool, none of which shares a slot with this one. */
    ghost predicate Beside(others: set<OrderQueue>)
      reads this, others, pool, pool.storage, pool.freeList, pool.inUse
      requires Shape()
    {
      forall q <- others :: q != this && q.pool == pool && q.Valid() && Disjoint(Slots(), q.Slots())
    }

    constructor (pool: OrderPool)
      requires pool.Valid()
      ensures this.pool == pool && Valid() && Slots() == []
    {
      this.pool := pool;
      pointers := [];
      head, tail := 0, 0;
    }

    /** Reclaims the dead space at the front, and grows only when that is not enough. */
    method MakeRoom()
      requires Shape()
      modifies this
      ensures Shape() && tail < |pointers| && Slots() == old(Slots())
    {
      if tail == |pointers| {
        if head > 0 {
          pointers := pointers[head..tail] + pointers[tail - head..];
          tail := tail - head;
          head := 0;
        }
        if tail == |pointers| {
          var size := if |pointers| * 2 >= 16 then |pointers| * 2 else 16;
          pointers := pointers + seq(size - |pointers|, _ => None);
        }
      }
    }

    /** Closes the gap at the `k`-th place, shifting what is behind it one place forward. */
    method CloseGap(k: nat)
      requires Shape() && k < |Slots()|
      modifies this
      ensures Shape() && Slots() == old(Slots())[..k] + old(Slots())[k + 1..]
    {
      ghost var p, g := pointers, head + k;
      var j := head + k + 1;
      assert Shifted(p, g, j, pointers);
      hide Shifted;
      while j < tail
        invariant head == old(head) && tail == old(tail) && g + 1 <= j <= tail && |pointers| == |p|
        invariant Shifted(p, g, j, pointers)
      {
        ShiftStep(p, g, j, pointers);
        pointers := pointers[j - 1 := pointers[j]];
        j := j + 1;
      }
      GapClosed(p, head, tail, k, pointers);
      tail := tail - 1;
      pointers := pointers[tail := None];
      if head == tail {
        head, tail := 0, 0;
      }
    }

    /** Appends, or leaves the queue and the pool as they were when the pool is exhausted. */
    method PushBack(o: Order, ghost others: set<OrderQueue>) returns (ok: bool)
      requires Valid() && Beside(others)
      modifies this, pool, pool.storage, pool.inUse
      ensures Valid() && Beside(others) && forall q <- others :: q.Slots() == old(q.Slots())
      ensures ok <==> |old(pool.used)| < pool.storage.Length
      ensures ok ==> |Slots()| > 0
      ensures ok ==> var s := Slots()[|Slots()| - 1];
                     && s !in old(pool.used) && s < pool.storage.Length && pool.used == old(pool.used) + {s}
                     && Slots() == old(Slots()) + [s] && pool.storage[..] == old(pool.storage[..])[s := o]
      ensures !ok ==> Slots() == old(Slots()) && pool.used == old(pool.used)
                      && pool.storage[..] == old(pool.storage[..])
    {
      MakeRoom();
      var slot := pool.Store(o);
      if slot.None? {
        return false;
      }
      ghost var was := Slots();
      OwnedWith(was, old(pool.used), slot.value);
      hide Owned;
      pointers := pointers[tail := slot];
      tail := tail + 1;
      assert Slots() == was + [slot.value];
      forall q | q in others ensures q.Valid() && Disjoint(Slots(), q.Slots()) {
        OwnedApart(q.Slots(), old(pool.used), slot.value);
        OwnedBeside(q.Slots(), old(pool.used), slot.value);
      }
      return true;
    }

    /** Drops the front order; an empty queue is left alone. */
    method PopFront(ghost others: set<OrderQueue>)
      requires Valid() && Beside(others)
      modifies this, pool, pool.freeList, pool.inUse
      ensures Valid() && Beside(others) && forall q <- others :: q.Slots() == old(q.Slots())
      ensures old(Slots()) == [] ==> Slots() == [] && pool.used == old(pool.used)
      ensures old(Slots()) != [] ==> Slots() == old(Slots())[1..] && pool.used == old(pool.used) - {old(Slots())[0]}
    {
      if head == tail {
        return;
      }
      hide Owned;
      ghost var was := Slots();
      OwnedWithout(was, pool.used, 0);
      assert was[..0] + was[1..] == was[1..];
      var r := pool.Deallocate(pointers[head].value);
      assert r.Released?;
      pointers := pointers[head := None];
      head := head + 1;
      assert Slots() == was[1..];
      if head == tail {
        head, tail := 0, 0;
      }
      forall q | q in others ensures q.Valid() && Disjoint(Slots(), q.Slots()) {
        DisjointWithout(was, 0, q.Slots());
        OwnedBeside(q.Slots(), old(pool.used), was[0]);
      }
    }

    method Release(k: nat) returns (r: Release)
      requires Shape() && pool.Valid() && k < |Slots()|
      modifies pool, pool.freeList, pool.inUse
      ensures pool.Valid() && pool.used == old(pool.used) - {Slots()[k]}
              && (r.Released? <==> Slots()[k] in old(pool.used))
    {
      r := pool.Deallocate(pointers[head + k].value);
    }

    method EraseAt(k: nat, ghost others: set<OrderQueue>)
      requires Valid() && k < |Slots()| && Beside(others)
      modifies this, pool, pool.freeList, pool.inUse
      ensures Valid() && Beside(others) && forall q <- others :: q.Slots() == old(q.Slots())
      ensures Slots() == old(Slots())[..k] + old(Slots())[k + 1..]
      ensures pool.used == old(pool.used) - {old(Slots())[k]}
    {
      hide Owned, Populated;
      ghost var was := Slots();
      OwnedWithout(was, pool.used, k);
      var r := Release(k);
      assert r.Released?;
      CloseGap(k);
      forall q | q in others ensures q.Valid() && Disjoint(Slots(), q.Slots()) {
        DisjointWithout(was, k, q.Slots());
        OwnedBeside(q.Slots(), old(pool.used), was[k]);
      }
    }
  }
}
