/** One side of the book as a flat list in matching order (best price first, then arrival),
    and everything an incoming order can do to it. */
module PriorityList {
  import opened Types

  // ----- order relations -------------------------------------------------------------------

  /** Price `p` is strictly better than `q` for a resting order on `side`. */
  predicate Better(side: Side, p: int, q: int) { if side.Buy? then p > q else p < q }

  /** The incoming order accepts to trade at `price`. */
  predicate Crosses(inc: Order, price: int) {
    inc.kind.Market? || (if inc.side.Buy? then price <= inc.price else inc.price <= price)
  }

  ghost predicate Sorted(side: Side, q: seq<Order>) {
    forall i, j :: 0 <= i < j < |q| ==> !Better(side, q[j].price, q[i].price)
  }

  ghost predicate DistinctIds(q: seq<Order>) {
    forall i, j :: 0 <= i < j < |q| ==> q[i].id != q[j].id
  }

  /** Within one price, earlier in the list means smaller priority number. */
  ghost predicate Fifo(q: seq<Order>) {
    forall i, j :: 0 <= i < j < |q| && q[i].price == q[j].price ==> q[i].priority < q[j].priority
  }

  ghost predicate Alive(q: seq<Order>) { forall o <- q :: o.remaining > 0 }

  /** What every resting order satisfies. */
  predicate Resting(side: Side, o: Order) {
    o.side == side && o.kind.Limit? && o.price > 0 && o.remaining <= o.quantity && o.quantity > 0
  }

  ghost predicate AllResting(side: Side, q: seq<Order>) { forall o <- q :: Resting(side, o) }

  predicate Has(q: seq<Order>, id: nat) { exists i :: 0 <= i < |q| && q[i].id == id }

  // ----- the matching loop -----------------------------------------------------------------

  datatype Outcome = Outcome(fills: seq<Fill>, rest: seq<Order>, left: nat)

  /** Consumes the list greedily. Orders already at zero are dropped on the way. */
  function Sweep(q: seq<Order>, inc: Order, need: nat): Outcome
  {
    if need == 0 || q == [] || !Crosses(inc, q[0].price) then Outcome([], q, need)
    else if q[0].remaining == 0 then Sweep(q[1..], inc, need)
    else if need < q[0].remaining then
      Outcome([Fill(q[0], need)], [q[0].(remaining := q[0].remaining - need)] + q[1..], 0)
    else
      var t := Sweep(q[1..], inc, need - q[0].remaining);
      Outcome([Fill(q[0], q[0].remaining)] + t.fills, t.rest, t.left)
  }

  /** Sum of remaining quantities. */
  function Total(q: seq<Order>): nat { if q == [] then 0 else q[0].remaining + Total(q[1..]) }

  function Filled(fs: seq<Fill>): nat { if fs == [] then 0 else fs[0].quantity + Filled(fs[1..]) }

  // ----- the two lookaheads ----------------------------------------------------------------

  /** Quantity offered by the leading orders that cross. */
  function Depth(q: seq<Order>, inc: Order): nat {
    if q == [] || !Crosses(inc, q[0].price) then 0 else q[0].remaining + Depth(q[1..], inc)
  }

  predicate CanFullyFill(q: seq<Order>, inc: Order) {
    q != [] && Crosses(inc, q[0].price) && inc.remaining <= Depth(q, inc)
  }

  predicate WouldSelfTrade(q: seq<Order>, inc: Order, need: nat) {
    if q == [] || !Crosses(inc, q[0].price) then false
    else if q[0].remaining == 0 then WouldSelfTrade(q[1..], inc, need)
    else if q[0].trader == inc.trader then true
    else if need <= q[0].remaining then false
    else WouldSelfTrade(q[1..], inc, need - q[0].remaining)
  }

  // ----- self-trade prevention -------------------------------------------------------------

  predicate Own(inc: Order, o: Order) { o.trader == inc.trader && o.remaining > 0 }

  /** CANCEL_OLDEST: without the first own live order among those that cross. */
  function DropFirstOwn(q: seq<Order>, inc: Order): seq<Order> {
    if q == [] || !Crosses(inc, q[0].price) then q
    else if Own(inc, q[0]) then q[1..]
    else [q[0]] + DropFirstOwn(q[1..], inc)
  }

  /** CANCEL_BOTH: without any own live order among those that cross. */
  function DropAllOwn(q: seq<Order>, inc: Order): seq<Order> {
    if q == [] || !Crosses(inc, q[0].price) then q
    else if Own(inc, q[0]) then DropAllOwn(q[1..], inc)
    else [q[0]] + DropAllOwn(q[1..], inc)
  }

  // ----- edits by id -----------------------------------------------------------------------

  function Position(q: seq<Order>, id: nat): (k: nat)
    ensures k <= |q| && (k < |q| <==> Has(q, id))
    ensures k < |q| ==> q[k].id == id
    ensures forall i :: 0 <= i < k ==> q[i].id != id
  {
    if q == [] then 0 else if q[0].id == id then 0 else
      var k := Position(q[1..], id);
      assert k < |q[1..]| ==> q[k + 1].id == id;
      assert forall i :: 1 <= i < |q| ==> q[i] == q[1..][i - 1];
      k + 1
  }

  function RemoveAt(q: seq<Order>, k: nat): seq<Order> requires k < |q| { q[..k] + q[k + 1..] }

  function Remove(q: seq<Order>, id: nat): seq<Order> {
    var k := Position(q, id);
    if k < |q| then RemoveAt(q, k) else q
  }

  /** Reduces the order at `k`, removing it when nothing remains. */
  function FillAt(q: seq<Order>, k: nat, quantity: nat): seq<Order>
    requires k < |q| && quantity <= q[k].remaining
  {
    if q[k].remaining == quantity then RemoveAt(q, k)
    else q[k := q[k].(remaining := q[k].remaining - quantity)]
  }

  // ----- resting ---------------------------------------------------------------------------

  /** Number of leading orders that keep their place ahead of a newcomer at `price`. */
  function InsertPoint(side: Side, q: seq<Order>, price: int): (k: nat)
    ensures k <= |q|
    ensures forall i :: 0 <= i < k ==> !Better(side, price, q[i].price)
    ensures k < |q| ==> Better(side, price, q[k].price)
  {
    if q == [] || Better(side, price, q[0].price) then 0
    else
      var k := InsertPoint(side, q[1..], price);
      assert forall i :: 1 <= i < |q| ==> q[i] == q[1..][i - 1];
      k + 1
  }

  function Insert(side: Side, q: seq<Order>, o: Order): seq<Order> {
    var k := InsertPoint(side, q, o.price);
    q[..k] + [o] + q[k..]
  }
}
