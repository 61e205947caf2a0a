/** What the matching loop and its two lookaheads mean, stated without the loop. */
module SweepLaws {
  import opened Types
  import opened PriorityList

  // ----- price-time priority as a closed form ------------------------------------------------

  /** What the order at `j` is entitled to: whatever the quantity ahead of it leaves over. */
  function Share(q: seq<Order>, inc: Order, need: nat, j: nat): nat
    requires j < |q|
  {
    var ahead := Total(q[..j]);
    if Crosses(inc, q[j].price) && ahead < need then Min(q[j].remaining, need - ahead) else 0
  }

  /** The positive shares of the first `n` orders, in list order. */
  function Shares(q: seq<Order>, inc: Order, need: nat, n: nat): seq<Fill>
    requires n <= |q|
  {
    if n == 0 then []
    else
      var s := Share(q, inc, need, n - 1);
      Shares(q, inc, need, n - 1) + (if s > 0 then [Fill(q[n - 1], s)] else [])
  }

  lemma {:induction false} TotalPrefix(q: seq<Order>, j: nat)
    requires 0 < j <= |q|
    ensures Total(q[..j]) == q[0].remaining + Total(q[1..][..j - 1])
  {
    assert q[..j][1..] == q[1..][..j - 1];
  }

  lemma {:induction false} TotalSplit(q: seq<Order>, k: nat)
    requires k <= |q|
    ensures Total(q) == Total(q[..k]) + Total(q[k..])
  {
    if k == 0 {
      assert q[0..] == q;
    } else {
      TotalSplit(q[1..], k - 1);
      TotalPrefix(q, k);
      assert q[1..][k - 1..] == q[k..];
    }
  }

  lemma {:induction false} SharesCons(q: seq<Order>, inc: Order, need: nat, n: nat)
    requires 0 < n <= |q| && Crosses(inc, q[0].price)
    ensures Shares(q, inc, need, n) ==
            (if Min(q[0].remaining, need) > 0 then [Fill(q[0], Min(q[0].remaining, need))] else [])
            + Shares(q[1..], inc, need - Min(q[0].remaining, need), n - 1)
  {
    var need' := need - Min(q[0].remaining, need);
    if n == 1 {
      assert q[..0] == [];
      assert Shares(q, inc, need, 0) == [] && Shares(q[1..], inc, need', 0) == [];
    } else {
      SharesCons(q, inc, need, n - 1);
      TotalPrefix(q, n - 1);
      assert q[n - 1] == q[1..][n - 2];
      assert Share(q, inc, need, n - 1) == Share(q[1..], inc, need', n - 2);
    }
  }

  lemma {:induction false} NoShares(q: seq<Order>, inc: Order, need: nat, n: nat)
    requires n <= |q|
    requires need == 0 || forall o <- q :: !Crosses(inc, o.price)
    ensures Shares(q, inc, need, n) == []
  {
    if n > 0 { NoShares(q, inc, need, n - 1); }
  }

  lemma SortedTail(side: Side, q: seq<Order>)
    requires Sorted(side, q) && q != []
    ensures Sorted(side, q[1..])
  {}

  lemma CrossingIsPrefix(q: seq<Order>, inc: Order)
    requires Sorted(inc.side.Opposite(), q) && q != [] && !Crosses(inc, q[0].price)
    ensures forall o <- q :: !Crosses(inc, o.price)
  {}

  /** Price-time priority: the loop pays every resting order exactly its share, in list order. */
  lemma {:induction false} SweepPaysShares(q: seq<Order>, inc: Order, need: nat)
    requires Sorted(inc.side.Opposite(), q)
    ensures Sweep(q, inc, need).fills == Shares(q, inc, need, |q|)
  {
    if need == 0 || q == [] {
      NoShares(q, inc, need, |q|);
    } else if !Crosses(inc, q[0].price) {
      CrossingIsPrefix(q, inc);
      NoShares(q, inc, need, |q|);
    } else {
      SortedTail(inc.side.Opposite(), q);
      SharesCons(q, inc, need, |q|);
      var need' := need - Min(q[0].remaining, need);
      if need' == 0 { NoShares(q[1..], inc, 0, |q| - 1); } else { SweepPaysShares(q[1..], inc, need'); }
      if need' == 0 && q[0].remaining == need { assert Sweep(q[1..], inc, 0).fills == []; }
    }
  }

  /** Which fills occur: exactly the positive shares. */
  lemma {:induction false} SharesMembers(q: seq<Order>, inc: Order, need: nat, n: nat, f: Fill)
    requires n <= |q|
    ensures f in Shares(q, inc, need, n) <==>
            exists j :: 0 <= j < n && f == Fill(q[j], Share(q, inc, need, j)) && f.quantity > 0
  {
    if n > 0 { SharesMembers(q, inc, need, n - 1, f); }
  }

  /** An order trades if and only if it is live, crosses, and the quantity ahead is not enough. */
  predicate Reached(q: seq<Order>, inc: Order, need: nat, j: nat)
    requires j < |q|
  {
    q[j].remaining > 0 && Crosses(inc, q[j].price) && Total(q[..j]) < need
  }

  lemma FillReached(q: seq<Order>, inc: Order, need: nat, f: Fill) returns (j: nat)
    requires Sorted(inc.side.Opposite(), q) && f in Sweep(q, inc, need).fills
    ensures j < |q| && Reached(q, inc, need, j) && f == Fill(q[j], Share(q, inc, need, j))
  {
    SweepPaysShares(q, inc, need);
    SharesMembers(q, inc, need, |q|, f);
    j :| 0 <= j < |q| && f == Fill(q[j], Share(q, inc, need, j)) && f.quantity > 0;
  }

  lemma ReachedFills(q: seq<Order>, inc: Order, need: nat, j: nat)
    requires Sorted(inc.side.Opposite(), q) && j < |q| && Reached(q, inc, need, j)
    ensures Fill(q[j], Share(q, inc, need, j)) in Sweep(q, inc, need).fills
  {
    SweepPaysShares(q, inc, need);
    SharesMembers(q, inc, need, |q|, Fill(q[j], Share(q, inc, need, j)));
  }

  lemma FillIffReached(q: seq<Order>, inc: Order, need: nat, f: Fill)
    requires Sorted(inc.side.Opposite(), q)
    ensures f in Sweep(q, inc, need).fills <==>
            exists j :: 0 <= j < |q| && Reached(q, inc, need, j) && f == Fill(q[j], Share(q, inc, need, j))
  {
    if f in Sweep(q, inc, need).fills {
      var j := FillReached(q, inc, need, f);
    }
    if j :| 0 <= j < |q| && Reached(q, inc, need, j) && f == Fill(q[j], Share(q, inc, need, j)) {
      ReachedFills(q, inc, need, j);
    }
  }

  // ----- what stays of the list ----------------------------------------------------------------

  /** The order at `j` crosses, is reached with something left to fill, and is used up. */
  predicate UsedUp(q: seq<Order>, inc: Order, need: nat, j: nat)
    requires j < |q|
  {
    Crosses(inc, q[j].price) && Total(q[..j]) < need && Total(q[..j]) + q[j].remaining <= need
  }

  /** The first `n` orders without the used-up ones, each less its share. */
  function Leftover(q: seq<Order>, inc: Order, need: nat, n: nat): seq<Order>
    requires n <= |q|
  {
    if n == 0 then []
    else
      var o := q[n - 1];
      Leftover(q, inc, need, n - 1) +
      (if UsedUp(q, inc, need, n - 1) then [] else [o.(remaining := o.remaining - Share(q, inc, need, n - 1))])
  }

  lemma {:induction false} LeftoverCons(q: seq<Order>, inc: Order, need: nat, n: nat)
    requires 0 < n <= |q| && Crosses(inc, q[0].price) && need > 0
    ensures var paid := Min(q[0].remaining, need);
            Leftover(q, inc, need, n) ==
            (if q[0].remaining <= need then [] else [q[0].(remaining := q[0].remaining - paid)])
            + Leftover(q[1..], inc, need - paid, n - 1)
  {
    var need' := need - Min(q[0].remaining, need);
    if n == 1 {
      assert q[..0] == [];
      assert Leftover(q, inc, need, 0) == [] && Leftover(q[1..], inc, need', 0) == [];
    } else {
      LeftoverCons(q, inc, need, n - 1);
      TotalPrefix(q, n - 1);
      assert q[n - 1] == q[1..][n - 2];
      assert Share(q, inc, need, n - 1) == Share(q[1..], inc, need', n - 2);
      assert UsedUp(q, inc, need, n - 1) == UsedUp(q[1..], inc, need', n - 2);
    }
  }

  lemma {:induction false} AllLeft(q: seq<Order>, inc: Order, need: nat, n: nat)
    requires n <= |q|
    requires need == 0 || forall o <- q :: !Crosses(inc, o.price)
    ensures Leftover(q, inc, need, n) == q[..n]
  {
    if n > 0 {
      AllLeft(q, inc, need, n - 1);
      assert q[..n] == q[..n - 1] + [q[n - 1]];
    }
  }

  /** What the loop leaves: the used-up orders are gone, every other one is less its share, in order. */
  lemma {:induction false} SweepLeavesRest(q: seq<Order>, inc: Order, need: nat)
    requires Sorted(inc.side.Opposite(), q)
    ensures Sweep(q, inc, need).rest == Leftover(q, inc, need, |q|)
  {
    hide Leftover, UsedUp, Share;
    assert q[..|q|] == q;
    if need == 0 || q == [] {
      AllLeft(q, inc, need, |q|);
    } else if !Crosses(inc, q[0].price) {
      CrossingIsPrefix(q, inc);
      AllLeft(q, inc, need, |q|);
    } else {
      SortedTail(inc.side.Opposite(), q);
      LeftoverCons(q, inc, need, |q|);
      var need' := need - Min(q[0].remaining, need);
      if need' == 0 {
        AllLeft(q[1..], inc, 0, |q| - 1);
        assert q[1..][..|q| - 1] == q[1..];
        assert Sweep(q[1..], inc, 0).rest == q[1..];
      } else {
        SweepLeavesRest(q[1..], inc, need');
      }
    }
  }

  // ----- conservation ------------------------------------------------------------------------

  /** Quantity traded is what the incoming order lost and what the resting side lost. */
  lemma {:induction false} SweepConserves(q: seq<Order>, inc: Order, need: nat)
    ensures var s := Sweep(q, inc, need);
            s.left <= need && Filled(s.fills) == need - s.left && Total(q) == Total(s.rest) + Filled(s.fills)
  {
    if need == 0 || q == [] || !Crosses(inc, q[0].price) {
    } else if q[0].remaining == 0 {
      SweepConserves(q[1..], inc, need);
    } else if need < q[0].remaining {
      var s := Sweep(q, inc, need);
      assert s.rest[1..] == q[1..];
      assert s.fills[1..] == [];
    } else {
      SweepConserves(q[1..], inc, need - q[0].remaining);
      var s, t := Sweep(q, inc, need), Sweep(q[1..], inc, need - q[0].remaining);
      assert s.fills[1..] == t.fills;
    }
  }

  /** Each fill is at most what the resting order had, and positive. */
  lemma {:induction false} FillBounds(q: seq<Order>, inc: Order, need: nat)
    ensures forall f <- Sweep(q, inc, need).fills ::
              f.resting in q && 0 < f.quantity <= f.resting.remaining && Crosses(inc, f.resting.price)
  {
    if need == 0 || q == [] || !Crosses(inc, q[0].price) {
    } else if q[0].remaining == 0 {
      FillBounds(q[1..], inc, need);
    } else if need >= q[0].remaining {
      FillBounds(q[1..], inc, need - q[0].remaining);
    }
  }

  /** The loop stops short only when nothing left crosses. */
  lemma {:induction false} SweepExhausts(q: seq<Order>, inc: Order, need: nat)
    ensures var s := Sweep(q, inc, need);
            s.left > 0 && s.rest != [] ==> !Crosses(inc, s.rest[0].price)
  {
    if need == 0 || q == [] || !Crosses(inc, q[0].price) {
    } else if q[0].remaining == 0 {
      SweepExhausts(q[1..], inc, need);
    } else if need >= q[0].remaining {
      SweepExhausts(q[1..], inc, need - q[0].remaining);
    }
  }

  // ----- the fill-or-kill lookahead ------------------------------------------------------------

  /** What is left over is the shortfall of the crossing depth. */
  lemma {:induction false} LeftIsShortfall(q: seq<Order>, inc: Order, need: nat)
    ensures Sweep(q, inc, need).left == if need <= Depth(q, inc) then 0 else need - Depth(q, inc)
  {
    if need == 0 || q == [] || !Crosses(inc, q[0].price) {
    } else if q[0].remaining == 0 {
      LeftIsShortfall(q[1..], inc, need);
    } else if need >= q[0].remaining {
      LeftIsShortfall(q[1..], inc, need - q[0].remaining);
    }
  }

  /** The early-exit scan is true exactly when the loop reaches zero. */
  lemma CanFullyFillIff(q: seq<Order>, inc: Order)
    requires inc.remaining > 0
    ensures CanFullyFill(q, inc) <==> Sweep(q, inc, inc.remaining).left == 0
  {
    LeftIsShortfall(q, inc, inc.remaining);
  }

  // ----- the self-trade lookahead ----------------------------------------------------------------

  ghost predicate SelfTrades(inc: Order, fs: seq<Fill>) { exists f :: f in fs && f.resting.trader == inc.trader }

  /** The lookahead is true exactly when the match would put one trader on both sides. */
  lemma {:induction false} WouldSelfTradeIff(q: seq<Order>, inc: Order, need: nat)
    requires need > 0
    ensures WouldSelfTrade(q, inc, need) <==> SelfTrades(inc, Sweep(q, inc, need).fills)
  {
    var fs := Sweep(q, inc, need).fills;
    if q == [] || !Crosses(inc, q[0].price) {
    } else if q[0].remaining == 0 {
      WouldSelfTradeIff(q[1..], inc, need);
    } else if need < q[0].remaining {
      assert fs[0].resting == q[0];
    } else {
      assert fs[0].resting == q[0];
      var t := Sweep(q[1..], inc, need - q[0].remaining).fills;
      assert fs == [Fill(q[0], q[0].remaining)] + t;
      if need > q[0].remaining { WouldSelfTradeIff(q[1..], inc, need - q[0].remaining); }
      assert forall f :: f in fs <==> f == fs[0] || f in t;
    }
  }

  /** Index of the first own live order, among those that cross. */
  function FirstOwn(q: seq<Order>, inc: Order): (k: nat)
    ensures k <= |q|
  {
    if q == [] || !Crosses(inc, q[0].price) then |q|
    else if Own(inc, q[0]) then 0
    else 1 + FirstOwn(q[1..], inc)
  }

  /** CANCEL_OLDEST removes exactly the first own order the match would have hit. */
  lemma {:induction false} DropFirstOwnHits(q: seq<Order>, inc: Order, need: nat)
    requires need > 0 && WouldSelfTrade(q, inc, need)
    ensures var k := FirstOwn(q, inc);
            && k < |q| && Own(inc, q[k]) && Crosses(inc, q[k].price)
            && (forall i :: 0 <= i < k ==> !Own(inc, q[i]) && Crosses(inc, q[i].price))
            && Total(q[..k]) < need
            && DropFirstOwn(q, inc) == RemoveAt(q, k)
  {
    var k := FirstOwn(q, inc);
    if Own(inc, q[0]) {
      assert q[..0] == [];
    } else {
      DropFirstOwnHits(q[1..], inc, need - Min(need, q[0].remaining));
      assert forall i :: 1 <= i < |q| ==> q[i] == q[1..][i - 1];
      TotalPrefix(q, k);
      assert [q[0]] + RemoveAt(q[1..], k - 1) == RemoveAt(q, k);
    }
  }

  /** CANCEL_BOTH removes every own live order within the limit, whether or not it would be hit. */
  lemma {:induction false} DropAllOwnExact(q: seq<Order>, inc: Order, o: Order)
    requires Sorted(inc.side.Opposite(), q)
    ensures o in DropAllOwn(q, inc) <==> o in q && !(Own(inc, o) && Crosses(inc, o.price))
  {
    if q == [] {
    } else if !Crosses(inc, q[0].price) {
      CrossingIsPrefix(q, inc);
    } else {
      SortedTail(inc.side.Opposite(), q);
      DropAllOwnExact(q[1..], inc, o);
      assert o in q <==> o == q[0] || o in q[1..];
    }
  }
}
