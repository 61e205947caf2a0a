/** Price levels whose queues hold slots of a shared order store. */
module LevelStore {
  import opened Types
  import opened PriorityList

  datatype Level = Level(price: int, slots: seq<nat>)

  function Slots(levels: seq<Level>): seq<nat> {
    if levels == [] then [] else levels[0].slots + Slots(levels[1..])
  }

  predicate InStore(slots: seq<nat>, st: seq<Order>) { forall i :: 0 <= i < |slots| ==> slots[i] < |st| }

  function Orders(slots: seq<nat>, st: seq<Order>): (q: seq<Order>)
    requires InStore(slots, st)
    ensures |q| == |slots| && forall i :: 0 <= i < |q| ==> q[i] == st[slots[i]]
  {
    seq(|slots|, i requires 0 <= i < |slots| => st[slots[i]])
  }

  /** A level is never empty and holds only orders of its price. */
  ghost predicate LevelOk(l: Level, st: seq<Order>) {
    && l.slots != [] && InStore(l.slots, st)
    && forall j :: 0 <= j < |l.slots| ==> st[l.slots[j]].price == l.price
  }

  ghost predicate Ranked(side: Side, levels: seq<Level>) {
    forall i, j :: 0 <= i < j < |levels| ==> Better(side, levels[i].price, levels[j].price)
  }

  /** Levels in strict price order, each of them in order. */
  ghost predicate Tidy(side: Side, levels: seq<Level>, st: seq<Order>) {
    && InStore(Slots(levels), st) && Ranked(side, levels)
    && forall i :: 0 <= i < |levels| ==> LevelOk(levels[i], st)
  }

  lemma {:induction false} SlotsConcat(a: seq<Level>, b: seq<Level>)
    ensures Slots(a + b) == Slots(a) + Slots(b)
  {
    if a == [] {
      assert a + b == b;
    } else {
      assert (a + b)[1..] == a[1..] + b;
      SlotsConcat(a[1..], b);
    }
  }

  lemma SlotsOne(l: Level)
    ensures Slots([l]) == l.slots
  {}

  lemma Regroup(a: seq<nat>, b: seq<nat>, c: seq<nat>)
    ensures a + (b + c) == a + b + c
  {}

  lemma SlotsAt(levels: seq<Level>, i: nat)
    requires i < |levels|
    ensures Slots(levels) == Slots(levels[..i]) + levels[i].slots + Slots(levels[i + 1..])
  {
    var a, b := levels[..i], levels[i..];
    assert b[0] == levels[i] && b[1..] == levels[i + 1..];
    assert Slots(b) == levels[i].slots + Slots(levels[i + 1..]);
    SlotsSplit(levels, i);
    hide Slots;
    Regroup(Slots(a), levels[i].slots, Slots(levels[i + 1..]));
  }

  /** Replacing, removing or adding a level changes only its own stretch of slots. */
  lemma SlotsReplaced(levels: seq<Level>, i: nat, mid: seq<Level>)
    requires i < |levels|
    ensures Slots(levels[..i] + mid + levels[i + 1..]) == Slots(levels[..i]) + Slots(mid) + Slots(levels[i + 1..])
  {
    hide Slots;
    SlotsConcat(levels[..i] + mid, levels[i + 1..]);
    SlotsConcat(levels[..i], mid);
  }

  lemma SlotsInserted(levels: seq<Level>, i: nat, l: Level)
    requires i <= |levels|
    ensures Slots(levels[..i] + [l] + levels[i..]) == Slots(levels[..i]) + l.slots + Slots(levels[i..])
    ensures Slots(levels) == Slots(levels[..i]) + Slots(levels[i..])
  {
    hide Slots;
    SlotsConcat(levels[..i] + [l], levels[i..]);
    SlotsConcat(levels[..i], [l]);
    SlotsOne(l);
    SlotsConcat(levels[..i], levels[i..]);
    assert levels == levels[..i] + levels[i..];
  }

  // ----- positions --------------------------------------------------------------------------------

  /** Place of the `j`-th order of level `i` in the flat list. */
  function Place(levels: seq<Level>, i: nat, j: nat): nat
    requires i <= |levels|
  {
    |Slots(levels[..i])| + j
  }

  lemma SlotAt(levels: seq<Level>, i: nat, j: nat)
    requires i < |levels| && j < |levels[i].slots|
    ensures Place(levels, i, j) < |Slots(levels)| && Slots(levels)[Place(levels, i, j)] == levels[i].slots[j]
  {
    SlotsAt(levels, i);
  }

  lemma NextPlace(levels: seq<Level>, i: nat)
    requires i < |levels|
    ensures Place(levels, i + 1, 0) == Place(levels, i, |levels[i].slots|) <= |Slots(levels)|
  {
    assert levels[..i + 1] == levels[..i] + [levels[i]];
    SlotsConcat(levels[..i], [levels[i]]);
    SlotsOne(levels[i]);
    SlotsAt(levels, i);
  }

  lemma {:induction false} Locate(levels: seq<Level>, k: nat) returns (i: nat, j: nat)
    requires k < |Slots(levels)|
    ensures i < |levels| && j < |levels[i].slots| && Place(levels, i, j) == k
  {
    if k < |levels[0].slots| {
      i, j := 0, k;
      assert levels[..0] == [];
    } else {
      i, j := Locate(levels[1..], k - |levels[0].slots|);
      i := i + 1;
      assert levels[..i] == [levels[0]] + levels[1..][..i - 1];
      SlotsConcat([levels[0]], levels[1..][..i - 1]);
      SlotsOne(levels[0]);
    }
  }

  // ----- edits ------------------------------------------------------------------------------------

  /** Without slot `j` of level `i`; an emptied level goes too. */
  function Erase(levels: seq<Level>, i: nat, j: nat): seq<Level>
    requires i < |levels| && j < |levels[i].slots|
  {
    var slots := levels[i].slots;
    if |slots| == 1 then levels[..i] + levels[i + 1..]
    else levels[i := Level(levels[i].price, slots[..j] + slots[j + 1..])]
  }

  lemma CutOut<T>(a: seq<T>, b: seq<T>, c: seq<T>, j: nat)
    requires j < |b|
    ensures var k, s := |a| + j, a + b + c; a + (b[..j] + b[j + 1..]) + c == s[..k] + s[k + 1..]
  {}

  lemma ErasedMiddle(levels: seq<Level>, i: nat, j: nat)
    requires i < |levels| && j < |levels[i].slots|
    ensures var slots := levels[i].slots;
            Slots(Erase(levels, i, j)) == Slots(levels[..i]) + (slots[..j] + slots[j + 1..]) + Slots(levels[i + 1..])
  {
    var l := levels[i];
    var slots := l.slots[..j] + l.slots[j + 1..];
    if |l.slots| == 1 {
      assert Erase(levels, i, j) == levels[..i] + [] + levels[i + 1..];
      assert Slots([]) == slots;
      hide Slots, Erase;
      SlotsReplaced(levels, i, []);
    } else {
      assert Erase(levels, i, j) == levels[..i] + [Level(l.price, slots)] + levels[i + 1..];
      hide Slots, Erase;
      SlotsReplaced(levels, i, [Level(l.price, slots)]);
      SlotsOne(Level(l.price, slots));
    }
  }

  lemma EraseSlots(levels: seq<Level>, i: nat, j: nat)
    requires i < |levels| && j < |levels[i].slots|
    ensures var k, s := Place(levels, i, j), Slots(levels);
            k < |s| && Slots(Erase(levels, i, j)) == s[..k] + s[k + 1..]
  {
    hide Slots, Erase;
    SlotsAt(levels, i);
    ErasedMiddle(levels, i, j);
    CutOut(Slots(levels[..i]), levels[i].slots, Slots(levels[i + 1..]), j);
  }

  lemma OrdersWithout(slots: seq<nat>, st: seq<Order>, k: nat)
    requires InStore(slots, st) && k < |slots|
    ensures InStore(slots[..k] + slots[k + 1..], st)
    ensures Orders(slots[..k] + slots[k + 1..], st) == RemoveAt(Orders(slots, st), k)
  {}

  lemma ErasedOrders(levels: seq<Level>, st: seq<Order>, i: nat, j: nat)
    requires InStore(Slots(levels), st) && i < |levels| && j < |levels[i].slots|
    ensures var k := Place(levels, i, j);
            && k < |Slots(levels)| && InStore(Slots(Erase(levels, i, j)), st)
            && Orders(Slots(Erase(levels, i, j)), st) == RemoveAt(Orders(Slots(levels), st), k)
  {
    hide Slots, Erase, Place, Orders, InStore;
    EraseSlots(levels, i, j);
    OrdersWithout(Slots(levels), st, Place(levels, i, j));
  }

  lemma ErasedLevel(l: Level, st: seq<Order>, j: nat)
    requires LevelOk(l, st) && j < |l.slots|
    ensures var slots := l.slots[..j] + l.slots[j + 1..]; slots != [] ==> LevelOk(Level(l.price, slots), st)
  {}

  lemma RankedWithout(side: Side, levels: seq<Level>, i: nat)
    requires Ranked(side, levels) && i < |levels|
    ensures Ranked(side, levels[..i] + levels[i + 1..])
  {}

  lemma ErasedTidy(side: Side, levels: seq<Level>, st: seq<Order>, i: nat, j: nat)
    requires Tidy(side, levels, st) && i < |levels| && j < |levels[i].slots|
    ensures Tidy(side, Erase(levels, i, j), st)
  {
    hide Slots, InStore, LevelOk, Better;
    ErasedOrders(levels, st, i, j);
    ErasedLevel(levels[i], st, j);
    RankedWithout(side, levels, i);
  }

  /** At the back of level `i`. */
  function Push(levels: seq<Level>, i: nat, s: nat): seq<Level>
    requires i < |levels|
  {
    levels[i := Level(levels[i].price, levels[i].slots + [s])]
  }

  function Open(levels: seq<Level>, i: nat, price: int, s: nat): seq<Level>
    requires i <= |levels|
  {
    levels[..i] + [Level(price, [s])] + levels[i..]
  }

  lemma PushSlots(levels: seq<Level>, i: nat, s: nat)
    requires i < |levels|
    ensures Slots(Push(levels, i, s)) == Slots(levels[..i + 1]) + [s] + Slots(levels[i + 1..])
  {
    var l := Level(levels[i].price, levels[i].slots + [s]);
    assert Push(levels, i, s) == levels[..i] + [l] + levels[i + 1..];
    hide Slots, Push;
    SlotsReplaced(levels, i, [l]);
    SlotsOne(l);
    assert levels[..i + 1] == levels[..i] + [levels[i]];
    SlotsConcat(levels[..i], [levels[i]]);
    SlotsOne(levels[i]);
    assert Slots(levels[..i]) + (levels[i].slots + [s]) == Slots(levels[..i]) + levels[i].slots + [s];
  }

  // ----- resting an order -----------------------------------------------------------------------------

  /** Where the binary search stops: every earlier level is strictly better, no later one is. */
  ghost predicate IsLevelIndex(side: Side, levels: seq<Level>, price: int, i: nat) {
    && i <= |levels|
    && (forall n :: 0 <= n < i ==> Better(side, levels[n].price, price))
    && (forall n :: i <= n < |levels| ==> !Better(side, levels[n].price, price))
  }

  /** The levels after slot `s` rests at `price`. */
  function Placed(levels: seq<Level>, i: nat, price: int, s: nat): seq<Level>
    requires i <= |levels|
  {
    if i < |levels| && levels[i].price == price then Push(levels, i, s) else Open(levels, i, price, s)
  }

  function PlacedAt(levels: seq<Level>, i: nat, price: int): nat
    requires i <= |levels|
  {
    if i < |levels| && levels[i].price == price then |Slots(levels[..i + 1])| else |Slots(levels[..i])|
  }

  lemma OpenSlots(levels: seq<Level>, i: nat, price: int, s: nat)
    requires i <= |levels|
    ensures Slots(Open(levels, i, price, s)) == Slots(levels[..i]) + [s] + Slots(levels[i..])
  {
    hide Slots;
    SlotsInserted(levels, i, Level(price, [s]));
  }

  lemma SlotsSplit(levels: seq<Level>, i: nat)
    requires i <= |levels|
    ensures Slots(levels) == Slots(levels[..i]) + Slots(levels[i..])
  {
    hide Slots;
    SlotsConcat(levels[..i], levels[i..]);
    assert levels == levels[..i] + levels[i..];
  }

  lemma PlacedSlots(levels: seq<Level>, i: nat, price: int, s: nat)
    requires i <= |levels|
    ensures var k, slots := PlacedAt(levels, i, price), Slots(levels);
            k <= |slots| && Slots(Placed(levels, i, price, s)) == slots[..k] + [s] + slots[k..]
  {
    hide Slots, Push, Open;
    if i < |levels| && levels[i].price == price {
      PushSlots(levels, i, s);
      SlotsSplit(levels, i + 1);
    } else {
      OpenSlots(levels, i, price, s);
      SlotsSplit(levels, i);
    }
  }

  /** The price at each place of the flat list is that of its level. */
  lemma PlacePrice(side: Side, levels: seq<Level>, st: seq<Order>, k: nat) returns (i: nat)
    requires Tidy(side, levels, st) && k < |Slots(levels)|
    ensures i < |levels| && Orders(Slots(levels), st)[k].price == levels[i].price
    ensures Place(levels, i, 0) <= k < Place(levels, i, 0) + |levels[i].slots|
  {
    var j;
    i, j := Locate(levels, k);
    SlotAt(levels, i, j);
    assert LevelOk(levels[i], st);
    hide Slots;
  }

  lemma PlaceMonotone(levels: seq<Level>, i: nat, n: nat)
    requires i <= n <= |levels|
    ensures |Slots(levels[..i])| <= |Slots(levels[..n])|
  {
    hide Slots;
    assert levels[..n] == levels[..i] + levels[i..n];
    SlotsConcat(levels[..i], levels[i..n]);
  }

  lemma InsertPointIs(side: Side, q: seq<Order>, price: int, k: nat)
    requires k <= |q| && (forall n :: 0 <= n < k ==> !Better(side, price, q[n].price))
    requires k < |q| ==> Better(side, price, q[k].price)
    ensures InsertPoint(side, q, price) == k
  {}

  lemma TidySorted(side: Side, levels: seq<Level>, st: seq<Order>)
    requires Tidy(side, levels, st)
    ensures Sorted(side, Orders(Slots(levels), st))
  {
    hide Slots, LevelOk;
    var q := Orders(Slots(levels), st);
    forall m, n | 0 <= m < n < |q| ensures !Better(side, q[n].price, q[m].price) {
      var i := PlacePrice(side, levels, st, m);
      var j := PlacePrice(side, levels, st, n);
      if j < i {
        NextPlace(levels, j);
        PlaceMonotone(levels, j + 1, i);
      }
    }
  }

  lemma PlacedPoint(side: Side, levels: seq<Level>, st: seq<Order>, i: nat, price: int)
    requires Tidy(side, levels, st) && IsLevelIndex(side, levels, price, i)
    ensures InsertPoint(side, Orders(Slots(levels), st), price) == PlacedAt(levels, i, price)
  {
    hide Slots, LevelOk;
    var q, k := Orders(Slots(levels), st), PlacedAt(levels, i, price);
    var top := if i < |levels| && levels[i].price == price then i + 1 else i;
    SlotsSplit(levels, top);
    forall n | 0 <= n < |q| ensures n < k ==> !Better(side, price, q[n].price)
                            ensures n >= k ==> Better(side, price, q[n].price)
    {
      var m := PlacePrice(side, levels, st, n);
      if n < k {
        if m >= top { PlaceMonotone(levels, top, m); }
      } else if m < top {
        NextPlace(levels, m);
        PlaceMonotone(levels, m + 1, top);
      } else if m > i {
        assert Better(side, levels[i].price, levels[m].price);
      }
    }
    InsertPointIs(side, q, price, k);
  }

  lemma OrdersInserted(slots: seq<nat>, st: seq<Order>, k: nat, s: nat)
    requires InStore(slots, st) && k <= |slots| && s < |st|
    ensures InStore(slots[..k] + [s] + slots[k..], st)
    ensures Orders(slots[..k] + [s] + slots[k..], st) == Orders(slots, st)[..k] + [st[s]] + Orders(slots, st)[k..]
  {}

  /** Placing a slot in the levels is inserting its order in the flat list. */
  lemma PlacedOrders(side: Side, levels: seq<Level>, st: seq<Order>, i: nat, s: nat)
    requires s < |st| && Tidy(side, levels, st) && IsLevelIndex(side, levels, st[s].price, i)
    ensures var r := Placed(levels, i, st[s].price, s);
            InStore(Slots(r), st) && Orders(Slots(r), st) == Insert(side, Orders(Slots(levels), st), st[s])
  {
    var k := PlacedAt(levels, i, st[s].price);
    hide Slots, LevelOk, Placed, PlacedAt, InStore, Orders;
    PlacedPoint(side, levels, st, i, st[s].price);
    PlacedSlots(levels, i, st[s].price, s);
    OrdersInserted(Slots(levels), st, k, s);
  }

  lemma OpenRanked(side: Side, levels: seq<Level>, i: nat, price: int, s: nat)
    requires Ranked(side, levels) && IsLevelIndex(side, levels, price, i) && (i < |levels| ==> levels[i].price != price)
    ensures Ranked(side, Open(levels, i, price, s))
  {}

  lemma PlacedTidy(side: Side, levels: seq<Level>, st: seq<Order>, i: nat, s: nat)
    requires s < |st| && Tidy(side, levels, st) && IsLevelIndex(side, levels, st[s].price, i)
    ensures Tidy(side, Placed(levels, i, st[s].price, s), st)
  {
    var price := st[s].price;
    var r := Placed(levels, i, price, s);
    PlacedOrders(side, levels, st, i, s);
    assert LevelOk(Level(price, [s]), st);
    hide Slots, LevelOk, InStore, Better, IsLevelIndex;
    if i < |levels| && levels[i].price == price { PushedLevel(levels[i], st, s); }
    else { OpenRanked(side, levels, i, price, s); }
  }

  lemma PushedLevel(l: Level, st: seq<Order>, s: nat)
    requires LevelOk(l, st) && s < |st| && st[s].price == l.price
    ensures LevelOk(Level(l.price, l.slots + [s]), st)
  {}

  // ----- the store ------------------------------------------------------------------------------------

  /** Every used slot is held exactly once, on one side. */
  ghost predicate Held(a: seq<nat>, b: seq<nat>, used: set<nat>) {
    multiset(a) + multiset(b) == multiset(used)
  }

  lemma Twice(a: seq<nat>, i: nat, j: nat)
    requires i < j < |a|
    ensures a[i] == a[j] ==> multiset(a)[a[j]] >= 2
  {
    assert a == a[..j] + [a[j]] + a[j + 1..];
    assert a[i] in a[..j];
  }

  lemma HeldOnce(a: seq<nat>, b: seq<nat>, used: set<nat>)
    requires Held(a, b, used)
    ensures |a| + |b| == |used|
    ensures forall i, j :: 0 <= i < j < |a| ==> a[i] != a[j]
    ensures forall i, j :: 0 <= i < |a| && 0 <= j < |b| ==> a[i] != b[j]
    ensures forall i :: 0 <= i < |a| ==> a[i] in used
  {
    assert |multiset(a) + multiset(b)| == |multiset(used)|;
    assert forall x :: multiset(a)[x] + multiset(b)[x] == multiset(used)[x] <= 1;
    forall i, j | 0 <= i < j < |a| ensures a[i] != a[j] { Twice(a, i, j); }
    forall i, j | 0 <= i < |a| && 0 <= j < |b| ensures a[i] != b[j] {
      assert a[i] in multiset(a) && b[j] in multiset(b);
    }
    forall i | 0 <= i < |a| ensures a[i] in used { assert a[i] in multiset(a) + multiset(b); }
  }

  lemma HeldSwap(a: seq<nat>, b: seq<nat>, used: set<nat>)
    requires Held(a, b, used)
    ensures Held(b, a, used)
  {}

  lemma CancelOne(m: multiset<nat>, n: multiset<nat>, x: nat)
    requires m + multiset{x} == n + multiset{x}
    ensures m == n
  {
    forall y ensures m[y] == n[y] { assert (m + multiset{x})[y] == (n + multiset{x})[y]; }
  }

  lemma HeldWithout(a: seq<nat>, b: seq<nat>, used: set<nat>, k: nat)
    requires Held(a, b, used) && k < |a|
    ensures Held(a[..k] + a[k + 1..], b, used - {a[k]})
  {
    assert a == a[..k] + [a[k]] + a[k + 1..];
    HeldOnce(a, b, used);
    assert multiset(used) == multiset(used - {a[k]}) + multiset{a[k]};
    var a' := a[..k] + a[k + 1..];
    assert multiset(a) == multiset(a') + multiset{a[k]};
    CancelOne(multiset(a') + multiset(b), multiset(used - {a[k]}), a[k]);
  }

  lemma HeldWith(a: seq<nat>, b: seq<nat>, used: set<nat>, k: nat, s: nat)
    requires Held(a, b, used) && k <= |a| && s !in used
    ensures Held(a[..k] + [s] + a[k..], b, used + {s})
  {
    assert a == a[..k] + a[k..];
    assert multiset(used + {s}) == multiset(used) + multiset{s};
  }

  /** Overwriting one slot changes one place of one side. */
  lemma OrdersUpdated(slots: seq<nat>, st: seq<Order>, k: nat, o: Order)
    requires InStore(slots, st) && k < |slots| && forall i, j :: 0 <= i < j < |slots| ==> slots[i] != slots[j]
    ensures Orders(slots, st[slots[k] := o]) == Orders(slots, st)[k := o]
  {}

  lemma OrdersUntouched(slots: seq<nat>, st: seq<Order>, s: nat, o: Order)
    requires InStore(slots, st) && s < |st| && forall i :: 0 <= i < |slots| ==> slots[i] != s
    ensures Orders(slots, st[s := o]) == Orders(slots, st)
  {}

  lemma TidyUpdated(side: Side, levels: seq<Level>, st: seq<Order>, s: nat, o: Order)
    requires Tidy(side, levels, st) && s < |st|
    requires o.price == st[s].price || forall i :: 0 <= i < |Slots(levels)| ==> Slots(levels)[i] != s
    ensures Tidy(side, levels, st[s := o])
  {
    forall i | 0 <= i < |levels| ensures LevelOk(levels[i], st[s := o]) {
      forall j | 0 <= j < |levels[i].slots| ensures levels[i].slots[j] == s ==> o.price == st[s].price {
        SlotAt(levels, i, j);
      }
      assert LevelOk(levels[i], st);
    }
  }

  // ----- the two sides together -------------------------------------------------------------------------

  /** The side `levels` and the other side share the used slots of the store, each in order. */
  ghost predicate Kept(side: Side, levels: seq<Level>, other: seq<Level>, st: seq<Order>, used: set<nat>) {
    && Held(Slots(levels), Slots(other), used)
    && Tidy(side, levels, st) && Tidy(side.Opposite(), other, st)
    && forall s <- used :: s < |st|
  }

  lemma KeptSwap(side: Side, levels: seq<Level>, other: seq<Level>, st: seq<Order>, used: set<nat>)
    requires Kept(side, levels, other, st, used)
    ensures Kept(side.Opposite(), other, levels, st, used)
  {}

  lemma KeptErase(side: Side, levels: seq<Level>, other: seq<Level>, st: seq<Order>, used: set<nat>, i: nat, j: nat)
    requires Kept(side, levels, other, st, used) && i < |levels| && j < |levels[i].slots|
    ensures Place(levels, i, j) < |Slots(levels)| && levels[i].slots[j] in used
    ensures Kept(side, Erase(levels, i, j), other, st, used - {levels[i].slots[j]})
    ensures Orders(Slots(Erase(levels, i, j)), st) == RemoveAt(Orders(Slots(levels), st), Place(levels, i, j))
  {
    hide Slots, LevelOk, Ranked, InStore, Erase, Orders, Held, Place, RemoveAt;
    ErasedTidy(side, levels, st, i, j);
    hide Tidy;
    SlotAt(levels, i, j);
    ErasedOrders(levels, st, i, j);
    EraseSlots(levels, i, j);
    HeldOnce(Slots(levels), Slots(other), used);
    HeldWithout(Slots(levels), Slots(other), used, Place(levels, i, j));
  }

  lemma KeptOverwrite(side: Side, levels: seq<Level>, other: seq<Level>, st: seq<Order>, used: set<nat>, i: nat,
                      j: nat, o: Order)
    requires Kept(side, levels, other, st, used) && i < |levels| && j < |levels[i].slots| && o.price == levels[i].price
    ensures levels[i].slots[j] < |st| && Place(levels, i, j) < |Slots(levels)|
    ensures var st' := st[levels[i].slots[j] := o];
            && Kept(side, levels, other, st', used)
            && Orders(Slots(levels), st') == Orders(Slots(levels), st)[Place(levels, i, j) := o]
            && Orders(Slots(other), st') == Orders(Slots(other), st)
  {
    SlotAt(levels, i, j);
    assert LevelOk(levels[i], st);
    hide Slots;
    var slot := levels[i].slots[j];
    HeldOnce(Slots(levels), Slots(other), used);
    TidyUpdated(side, levels, st, slot, o);
    TidyUpdated(side.Opposite(), other, st, slot, o);
    OrdersUpdated(Slots(levels), st, Place(levels, i, j), o);
    OrdersUntouched(Slots(other), st, slot, o);
  }

  lemma KeptStore(side: Side, levels: seq<Level>, other: seq<Level>, st: seq<Order>, used: set<nat>, s: nat, o: Order)
    requires Kept(side, levels, other, st, used) && s < |st| && s !in used
    ensures var st' := st[s := o];
            && Kept(side, levels, other, st', used)
            && Orders(Slots(levels), st') == Orders(Slots(levels), st)
            && Orders(Slots(other), st') == Orders(Slots(other), st)
  {
    hide Slots;
    HeldOnce(Slots(levels), Slots(other), used);
    HeldSwap(Slots(levels), Slots(other), used);
    HeldOnce(Slots(other), Slots(levels), used);
    TidyUpdated(side, levels, st, s, o);
    TidyUpdated(side.Opposite(), other, st, s, o);
    OrdersUntouched(Slots(levels), st, s, o);
    OrdersUntouched(Slots(other), st, s, o);
  }

  lemma KeptPlace(side: Side, levels: seq<Level>, other: seq<Level>, st: seq<Order>, used: set<nat>, i: nat, s: nat)
    requires Kept(side, levels, other, st, used) && s < |st| && s !in used
    requires IsLevelIndex(side, levels, st[s].price, i)
    ensures var r := Placed(levels, i, st[s].price, s);
            Kept(side, r, other, st, used + {s})
            && Orders(Slots(r), st) == Insert(side, Orders(Slots(levels), st), st[s])
  {
    var price := st[s].price;
    PlacedOrders(side, levels, st, i, s);
    PlacedTidy(side, levels, st, i, s);
    PlacedSlots(levels, i, price, s);
    hide Slots, Placed, PlacedAt, Tidy, Orders, Insert;
    HeldWith(Slots(levels), Slots(other), used, PlacedAt(levels, i, price), s);
  }

  // ----- levels are determined by the flat list ---------------------------------------------------------

  /** The flat list cut wherever the price changes. */
  function Grouped(q: seq<Order>): seq<seq<Order>> {
    if q == [] then []
    else
      var t := Grouped(q[1..]);
      if t != [] && t[0] != [] && t[0][0].price == q[0].price then [[q[0]] + t[0]] + t[1..] else [[q[0]]] + t
  }

  ghost function LevelOrders(levels: seq<Level>, st: seq<Order>): seq<seq<Order>>
    requires forall i :: 0 <= i < |levels| ==> InStore(levels[i].slots, st)
  {
    if levels == [] then [] else [Orders(levels[0].slots, st)] + LevelOrders(levels[1..], st)
  }

  /** Grouping one level's orders followed by a list that starts at another price. */
  lemma {:induction false} GroupedLevel(a: seq<Order>, q: seq<Order>, price: int)
    requires a != [] && (forall i :: 0 <= i < |a| ==> a[i].price == price)
    requires var t := Grouped(q); t == [] || (t[0] != [] && t[0][0].price != price)
    ensures Grouped(a + q) == [a] + Grouped(q)
  {
    if |a| == 1 {
      assert (a + q)[1..] == q && a == [a[0]];
    } else {
      assert (a + q)[1..] == a[1..] + q;
      GroupedLevel(a[1..], q, price);
      assert [a[0]] + a[1..] == a;
      assert Grouped(a + q) == [[a[0]] + a[1..]] + ([a[1..]] + Grouped(q))[1..];
    }
  }

  lemma OrdersConcat(a: seq<nat>, b: seq<nat>, st: seq<Order>)
    requires InStore(a + b, st)
    ensures InStore(a, st) && InStore(b, st) && Orders(a + b, st) == Orders(a, st) + Orders(b, st)
  {
    assert forall i :: 0 <= i < |a| ==> a[i] == (a + b)[i];
    assert forall i :: 0 <= i < |b| ==> b[i] == (a + b)[|a| + i];
  }

  lemma TidyTail(side: Side, levels: seq<Level>, st: seq<Order>)
    requires Tidy(side, levels, st) && levels != []
    ensures Tidy(side, levels[1..], st) && LevelOk(levels[0], st)
    ensures Orders(Slots(levels), st) == Orders(levels[0].slots, st) + Orders(Slots(levels[1..]), st)
    ensures |levels| > 1 ==> LevelOk(levels[1], st) && levels[1].price != levels[0].price
  {
    var rest := levels[1..];
    assert Slots(levels) == levels[0].slots + Slots(rest);
    hide Slots, LevelOk, Orders, InStore;
    OrdersConcat(levels[0].slots, Slots(rest), st);
    assert forall i :: 0 <= i < |rest| ==> rest[i] == levels[i + 1];
    forall i, j | 0 <= i < j < |rest| ensures Better(side, rest[i].price, rest[j].price) {
      assert Better(side, levels[i + 1].price, levels[j + 1].price);
    }
    if |levels| > 1 { assert Better(side, levels[0].price, levels[1].price); }
  }

  /** Whatever the slots, equal flat lists have equal price levels. */
  lemma {:induction false} LevelsAreGroups(side: Side, levels: seq<Level>, st: seq<Order>)
    requires Tidy(side, levels, st)
    ensures Grouped(Orders(Slots(levels), st)) == LevelOrders(levels, st)
  {
    if levels != [] {
      TidyTail(side, levels, st);
      var rest := levels[1..];
      LevelsAreGroups(side, rest, st);
      if rest != [] { assert LevelOrders(rest, st)[0] == Orders(levels[1].slots, st); }
      hide Slots, Better;
      GroupedLevel(Orders(levels[0].slots, st), Orders(Slots(rest), st), levels[0].price);
    }
  }
}
