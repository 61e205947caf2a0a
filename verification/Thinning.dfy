/** Every edit of a resting side other than `Insert` only removes orders or rescales them in place.
    Orderings, distinct ids and FIFO survive all such edits for one reason, proved once here. */
module Thinning {
  import opened Types
  import opened PriorityList

  /** Same order up to quantities, and no less well formed. */
  predicate Keeps(o': Order, o: Order) {
    && o' == o.(quantity := o'.quantity, remaining := o'.remaining)
    && (o.remaining <= o.quantity ==> o'.remaining <= o'.quantity)
    && (o.quantity > 0 ==> o'.quantity > 0)
  }

  /** `q'` is `q` with some orders removed and the others at most rescaled. */
  predicate Thinned(q': seq<Order>, q: seq<Order>) {
    if q == [] then q' == []
    else (q' != [] && Keeps(q'[0], q[0]) && Thinned(q'[1..], q[1..])) || Thinned(q', q[1..])
  }

  /** The positions in `q` from which the orders of `q'` come. */
  ghost predicate Embeds(f: seq<nat>, q': seq<Order>, q: seq<Order>) {
    && |f| == |q'|
    && (forall i :: 0 <= i < |f| ==> f[i] < |q| && Keeps(q'[i], q[f[i]]))
    && (forall i, j :: 0 <= i < j < |f| ==> f[i] < f[j])
  }

  lemma {:induction false} Embedding(q': seq<Order>, q: seq<Order>) returns (f: seq<nat>)
    requires Thinned(q', q)
    ensures Embeds(f, q', q)
  {
    if q == [] {
      f := [];
    } else if q' != [] && Keeps(q'[0], q[0]) && Thinned(q'[1..], q[1..]) {
      var g := Embedding(q'[1..], q[1..]);
      f := [0] + seq(|g|, i requires 0 <= i < |g| => g[i] + 1);
      forall i | 0 <= i < |f| ensures f[i] < |q| && Keeps(q'[i], q[f[i]]) {
        if i > 0 { assert q'[i] == q'[1..][i - 1] && q[f[i]] == q[1..][g[i - 1]]; }
      }
    } else {
      var g := Embedding(q', q[1..]);
      f := seq(|g|, i requires 0 <= i < |g| => g[i] + 1);
      forall i | 0 <= i < |f| ensures f[i] < |q| && Keeps(q'[i], q[f[i]]) {
        assert q[f[i]] == q[1..][g[i]];
      }
    }
  }

  lemma {:induction false} Same(q: seq<Order>)
    ensures Thinned(q, q)
  {
    if q != [] { Same(q[1..]); }
  }

  lemma {:induction false} Drop(q: seq<Order>)
    requires q != []
    ensures Thinned(q[1..], q)
  {
    Same(q[1..]);
  }

  lemma {:induction false} Rescaled(q: seq<Order>, k: nat, o: Order)
    requires k < |q| && Keeps(o, q[k])
    ensures Thinned(q[k := o], q)
  {
    var q' := q[k := o];
    if k == 0 {
      assert q'[1..] == q[1..];
      Same(q[1..]);
    } else {
      assert q'[1..] == q[1..][k - 1 := o];
      Rescaled(q[1..], k - 1, o);
    }
  }

  lemma {:induction false} RemovedAt(q: seq<Order>, k: nat)
    requires k < |q|
    ensures Thinned(RemoveAt(q, k), q)
  {
    if k == 0 {
      assert RemoveAt(q, 0) == q[1..];
      Drop(q);
    } else {
      assert RemoveAt(q, k)[1..] == RemoveAt(q[1..], k - 1);
      RemovedAt(q[1..], k - 1);
    }
  }

  lemma FilledAt(q: seq<Order>, k: nat, quantity: nat)
    requires k < |q| && quantity <= q[k].remaining
    ensures Thinned(FillAt(q, k, quantity), q)
  {
    if q[k].remaining == quantity { RemovedAt(q, k); }
    else { Rescaled(q, k, q[k].(remaining := q[k].remaining - quantity)); }
  }

  lemma {:induction false} Swept(q: seq<Order>, inc: Order, need: nat)
    ensures Thinned(Sweep(q, inc, need).rest, q)
  {
    if need == 0 || q == [] || !Crosses(inc, q[0].price) {
      Same(q);
    } else if q[0].remaining == 0 {
      Swept(q[1..], inc, need);
    } else if need < q[0].remaining {
      assert Sweep(q, inc, need).rest[1..] == q[1..];
      Same(q[1..]);
    } else {
      Swept(q[1..], inc, need - q[0].remaining);
    }
  }

  lemma {:induction false} DroppedFirstOwn(q: seq<Order>, inc: Order)
    ensures Thinned(DropFirstOwn(q, inc), q)
  {
    if q == [] || !Crosses(inc, q[0].price) { Same(q); }
    else if Own(inc, q[0]) { Drop(q); }
    else {
      assert DropFirstOwn(q, inc)[1..] == DropFirstOwn(q[1..], inc);
      DroppedFirstOwn(q[1..], inc);
    }
  }

  lemma {:induction false} DroppedAllOwn(q: seq<Order>, inc: Order)
    ensures Thinned(DropAllOwn(q, inc), q)
  {
    if q == [] || !Crosses(inc, q[0].price) { Same(q); }
    else {
      DroppedAllOwn(q[1..], inc);
      if !Own(inc, q[0]) { assert DropAllOwn(q, inc)[1..] == DropAllOwn(q[1..], inc); }
    }
  }

  // ----- what thinning preserves ---------------------------------------------------------------

  /** Every order of the thinned list is a rescaled order of the original. */
  lemma Origin(q': seq<Order>, q: seq<Order>, o': Order) returns (o: Order)
    requires Thinned(q', q) && o' in q'
    ensures o in q && Keeps(o', o)
  {
    var f := Embedding(q', q);
    var i :| 0 <= i < |q'| && q'[i] == o';
    o := q[f[i]];
  }

  lemma ThinnedSorted(side: Side, q': seq<Order>, q: seq<Order>)
    requires Thinned(q', q) && Sorted(side, q)
    ensures Sorted(side, q')
  {
    var f := Embedding(q', q);
    forall i, j | 0 <= i < j < |q'| ensures !Better(side, q'[j].price, q'[i].price) {
      assert !Better(side, q[f[j]].price, q[f[i]].price);
    }
  }

  lemma ThinnedDistinct(q': seq<Order>, q: seq<Order>)
    requires Thinned(q', q) && DistinctIds(q)
    ensures DistinctIds(q')
  {
    var f := Embedding(q', q);
    forall i, j | 0 <= i < j < |q'| ensures q'[i].id != q'[j].id {
      assert q[f[i]].id != q[f[j]].id;
    }
  }

  lemma ThinnedFifo(q': seq<Order>, q: seq<Order>)
    requires Thinned(q', q) && Fifo(q)
    ensures Fifo(q')
  {
    var f := Embedding(q', q);
    forall i, j | 0 <= i < j < |q'| && q'[i].price == q'[j].price ensures q'[i].priority < q'[j].priority {
      assert q[f[i]].priority < q[f[j]].priority;
    }
  }

  lemma ThinnedResting(side: Side, q': seq<Order>, q: seq<Order>)
    requires Thinned(q', q) && AllResting(side, q)
    ensures AllResting(side, q')
  {
    forall o' | o' in q' ensures Resting(side, o') { var o := Origin(q', q, o'); }
  }

  lemma ThinnedHas(q': seq<Order>, q: seq<Order>, id: nat)
    requires Thinned(q', q) && Has(q', id)
    ensures Has(q, id)
  {}

  lemma ThinnedLength(q': seq<Order>, q: seq<Order>)
    requires Thinned(q', q)
    ensures |q'| <= |q|
  {}

  lemma AliveAfter(q: seq<Order>, k: nat, quantity: nat)
    requires Alive(q) && k < |q| && quantity <= q[k].remaining
    ensures Alive(RemoveAt(q, k)) && Alive(FillAt(q, k, quantity))
  {}

  // ----- what insertion preserves --------------------------------------------------------------

  /** Everything from the insertion point on is strictly worse. */
  lemma InsertSplit(side: Side, q: seq<Order>, price: int)
    requires Sorted(side, q)
    ensures forall i :: InsertPoint(side, q, price) <= i < |q| ==> Better(side, price, q[i].price)
  {}

  /** Where each order of the list after an insertion comes from. */
  lemma InsertIndices(side: Side, q: seq<Order>, o: Order)
    ensures var k, q' := InsertPoint(side, q, o.price), Insert(side, q, o);
            && |q'| == |q| + 1 && q'[k] == o
            && (forall i :: 0 <= i < k ==> q'[i] == q[i])
            && (forall i :: k < i < |q'| ==> q'[i] == q[i - 1])
  {}

  lemma InsertSorted(side: Side, q: seq<Order>, o: Order)
    requires Sorted(side, q)
    ensures Sorted(side, Insert(side, q, o))
  {}

  lemma InsertMembers(side: Side, q: seq<Order>, o: Order, x: Order)
    ensures x in Insert(side, q, o) <==> x in q || x == o
  {}

  lemma InsertHas(side: Side, q: seq<Order>, o: Order, id: nat)
    ensures Has(Insert(side, q, o), id) <==> Has(q, id) || id == o.id
  {
    InsertIndices(side, q, o);
    var k, q' := InsertPoint(side, q, o.price), Insert(side, q, o);
    if Has(q, id) {
      var i :| 0 <= i < |q| && q[i].id == id;
      assert q'[if i < k then i else i + 1].id == id;
    }
    if Has(q', id) && id != o.id {
      var i :| 0 <= i < |q'| && q'[i].id == id;
      assert q[if i < k then i else i - 1].id == id;
    }
  }

  lemma InsertDistinct(side: Side, q: seq<Order>, o: Order)
    requires DistinctIds(q) && !Has(q, o.id)
    ensures DistinctIds(Insert(side, q, o))
  {}

  /** A newcomer with the largest priority number at its price goes behind everyone there. */
  lemma InsertFifo(side: Side, q: seq<Order>, o: Order)
    requires Sorted(side, q) && Fifo(q) && forall x <- q :: x.price == o.price ==> x.priority < o.priority
    ensures Fifo(Insert(side, q, o))
  {
    InsertIndices(side, q, o);
    InsertSplit(side, q, o.price);
    var k, q' := InsertPoint(side, q, o.price), Insert(side, q, o);
    forall i, j | 0 <= i < j < |q'| && q'[i].price == q'[j].price ensures q'[i].priority < q'[j].priority {
      var i0, j0 := if i < k then i else i - 1, if j < k then j else j - 1;
      if i != k && j != k { assert q'[i] == q[i0] && q'[j] == q[j0]; }
    }
  }
}
