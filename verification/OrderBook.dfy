/** The original OrderBook: two sorted lists, and a greedy match that trades as much as any price could. */
module OrderBooks {
  import opened Basics

  datatype Side = Buy | Sell

  datatype Order = Order(id: nat, side: Side, price: int, quantity: nat)

  datatype Trade = Trade(price: int, quantity: nat, buyId: nat, sellId: nat)

  /** Bids run high to low, asks low to high. */
  predicate Ahead(side: Side, a: int, b: int) {
    if side == Buy then a > b else a < b
  }

  predicate Sorted(side: Side, orders: seq<Order>) {
    forall i, j | 0 <= i < j < |orders| :: !Ahead(side, orders[j].price, orders[i].price)
  }

  /** std::lower_bound: the first order that is not strictly ahead of `price`. */
  function LowerBound(side: Side, orders: seq<Order>, price: int): (i: nat)
    ensures i <= |orders|
    ensures forall j | 0 <= j < i :: Ahead(side, orders[j].price, price)
    ensures i < |orders| ==> !Ahead(side, orders[i].price, price)
  {
    if orders == [] || !Ahead(side, orders[0].price, price) then 0 else 1 + LowerBound(side, orders[1..], price)
  }

  // ---- What could trade at a price ----

  /** Quantity willing to trade at `p`: bids at `p` or more, asks at `p` or less. */
  function Willing(side: Side, orders: seq<Order>, p: int): nat {
    if orders == [] then 0
    else (if Ahead(side, p, orders[0].price) then 0 else orders[0].quantity) + Willing(side, orders[1..], p)
  }

  function Total(orders: seq<Order>): nat {
    if orders == [] then 0 else orders[0].quantity + Total(orders[1..])
  }

  function Volume(trades: seq<Trade>): nat {
    if trades == [] then 0 else Volume(trades[..|trades| - 1]) + trades[|trades| - 1].quantity
  }

  /** What the orders of one id still want, and what trades gave that id on one side. */
  function Wanted(orders: seq<Order>, id: nat): nat {
    if orders == [] then 0 else (if orders[0].id == id then orders[0].quantity else 0) + Wanted(orders[1..], id)
  }

  function Got(side: Side, trades: seq<Trade>, id: nat): nat {
    if trades == [] then 0
    else
      var t := trades[|trades| - 1];
      Got(side, trades[..|trades| - 1], id) + if (if side == Buy then t.buyId else t.sellId) ==
          id then t.quantity else 0
  }

  /** Id by id, what was wanted is what is still wanted and what the trades gave. */
  ghost predicate Settled(side: Side, was: seq<Order>, now: seq<Order>, trades: seq<Trade>) {
    forall id: nat :: Wanted(was, id) == Wanted(now, id) + Got(side, trades, id)
  }

  lemma SettledStep(side: Side, was: seq<Order>, now: seq<Order>, trades: seq<Trade>, trade: Trade)
    requires Settled(side, was, now, trades) && now != [] && trade.quantity <= now[0].quantity
    requires (if side == Buy then trade.buyId else trade.sellId) == now[0].id
    ensures Settled(side, was, Filled(now, trade.quantity), trades + [trade])
  {
    assert (trades + [trade])[..|trades|] == trades;
    forall id: nat
      ensures Wanted(now, id) == Wanted(Filled(now, trade.quantity), id) + if now[0].id == id then trade.quantity else 0
    {
      if now[0].quantity != trade.quantity {
        assert Filled(now, trade.quantity)[1..] == now[1..];
      }
    }
  }

  predicate Uncrossed(bids: seq<Order>, asks: seq<Order>) {
    bids == [] || asks == [] || bids[0].price < asks[0].price
  }

  /** `v` is the largest quantity that any single price could trade. */
  ghost predicate IsBestVolume(bids: seq<Order>, asks: seq<Order>, v: nat) {
    && (forall p :: Min(Willing(Buy, bids, p), Willing(Sell, asks, p)) <= v)
    && (exists p :: Min(Willing(Buy, bids, p), Willing(Sell, asks, p)) == v)
  }

  /** The front order, less what it traded; gone if nothing is left. */
  function Filled(orders: seq<Order>, q: nat): seq<Order>
    requires orders != [] && q <= orders[0].quantity
  {
    if orders[0].quantity == q then orders[1..]
    else [orders[0].(quantity := orders[0].quantity - q)] + orders[1..]
  }

  lemma FilledWilling(side: Side, orders: seq<Order>, q: nat, p: int)
    requires orders != [] && q <= orders[0].quantity && Sorted(side, orders)
    ensures Sorted(side, Filled(orders, q)) && Total(orders) == Total(Filled(orders, q)) + q
    ensures Willing(side, orders, p) == Willing(side, Filled(orders, q), p) + if Ahead(side, p,
        orders[0].price) then 0 else q
    ensures forall i | 0 <= i < |Filled(orders, q)| :: !Ahead(side, Filled(orders, q)[i].price, orders[0].price)
  {
    var f := Filled(orders, q);
    if orders[0].quantity != q {
      assert f[1..] == orders[1..];
    }
  }

  lemma {:induction false} NoneWilling(side: Side, orders: seq<Order>, p: int)
    requires Sorted(side, orders) && (orders == [] || Ahead(side, p, orders[0].price))
    ensures Willing(side, orders, p) == 0
  {
    if |orders| > 1 {
      assert !Ahead(side, orders[1].price, orders[0].price);
      NoneWilling(side, orders[1..], p);
    }
  }

  /** An uncrossed book has nothing to trade at any price. */
  lemma NothingLeft(bids: seq<Order>, asks: seq<Order>, p: int)
    requires Sorted(Buy, bids) && Sorted(Sell, asks) && Uncrossed(bids, asks)
    ensures Willing(Buy, bids, p) == 0 || Willing(Sell, asks, p) == 0
  {
    if bids == [] || p > bids[0].price {
      NoneWilling(Buy, bids, p);
    } else if asks == [] || p < asks[0].price {
      NoneWilling(Sell, asks, p);
    }
  }

  /**
   * What matching keeps: `v` has gone from each side, from orders at least as good as `last` (the price of the last
   * order traded, or any price before the first trade), and what remains is not better than `last`.
   */
  ghost predicate Traded(side: Side, was: seq<Order>, now: seq<Order>, v: nat, last: int) {
    && Sorted(side, now)
    && Total(was) == Total(now) + v
    && (forall p :: Willing(side, was, p) <= Willing(side, now, p) + v)
    && (v > 0 ==> forall p | !Ahead(side, p, last) :: Willing(side, was, p) == Willing(side, now, p) + v)
    && (v == 0 ==> forall p :: Willing(side, was, p) == Willing(side, now, p))
    && (v > 0 ==> forall i | 0 <= i < |now| :: !Ahead(side, now[i].price, last))
  }

  lemma TradedStep(side: Side, was: seq<Order>, now: seq<Order>, v: nat, last: int, q: nat)
    requires Traded(side, was, now, v, last) && now != [] && q <= now[0].quantity
    ensures Traded(side, was, Filled(now, q), v + q, if q == 0 then last else now[0].price)
  {
    var f := Filled(now, q);
    FilledWilling(side, now, q, now[0].price);
    forall p
      ensures Willing(side, was, p) <= Willing(side, f, p) + v + q
      ensures q > 0 && !Ahead(side, p, now[0].price) ==> Willing(side, was, p) == Willing(side, f, p) + v + q
      ensures q == 0 ==> Willing(side, f, p) == Willing(side, now, p)
    {
      FilledWilling(side, now, q, p);
      assert v > 0 ==> !Ahead(side, now[0].price, last);
    }
  }

  /**
   * Each trade is at the ask's price, between a bid at least that high and an ask at exactly that price; it is of
   * nothing only if one of them wanted nothing.
   */
  ghost predicate Fair(t: Trade, bids: seq<Order>, asks: seq<Order>) {
    && (exists b | b in bids :: b.id == t.buyId && b.price >= t.price)
    && (exists a | a in asks :: a.id == t.sellId && a.price == t.price)
    && (t.quantity > 0 || AskedNothing(bids, t.buyId) || AskedNothing(asks, t.sellId))
  }

  predicate AskedNothing(orders: seq<Order>, id: nat) {
    exists o | o in orders :: o.id == id && o.quantity == 0
  }

  /** What is left is the back of the list: the best orders went first, whole, and at most one is part filled. */
  ghost predicate From(now: seq<Order>, was: seq<Order>) {
    exists gone | 0 <= gone <= |was| :: RestOf(now, was[gone..])
  }

  predicate RestOf(now: seq<Order>, rest: seq<Order>) {
    && |now| == |rest|
    && (now != [] ==>
        now[1..] == rest[1..] && now[0] == rest[0].(quantity := now[0].quantity)
        && now[0].quantity <= rest[0].quantity
        && (now[0].quantity == 0 ==> rest[0].quantity == 0))
  }

  lemma FilledFrom(now: seq<Order>, was: seq<Order>, q: nat)
    requires From(now, was) && now != [] && q <= now[0].quantity
    ensures From(Filled(now, q), was)
  {
    var gone :| 0 <= gone <= |was| && RestOf(now, was[gone..]);
    assert was[gone..][1..] == was[gone + 1..];
    if now[0].quantity == q {
      assert RestOf(Filled(now, q), was[gone + 1..]);
    } else {
      assert RestOf(Filled(now, q), was[gone..]);
    }
  }

  lemma NothingTraded(side: Side, orders: seq<Order>)
    requires Sorted(side, orders)
    ensures Traded(side, orders, orders, 0, 0) && From(orders, orders)
  {
    assert RestOf(orders, orders[0..]);
  }

  lemma FairTrade(t: Trade, bids: seq<Order>, asks: seq<Order>, bids0: seq<Order>, asks0: seq<Order>)
    requires From(bids, bids0) && From(asks, asks0) && bids != [] && asks != []
    requires t.buyId == bids[0].id && t.sellId == asks[0].id && bids[0].price >= t.price == asks[0].price
    requires t.quantity == Min(bids[0].quantity, asks[0].quantity)
    ensures Fair(t, bids0, asks0)
  {
    var goneBids :| 0 <= goneBids <= |bids0| && RestOf(bids, bids0[goneBids..]);
    var goneAsks :| 0 <= goneAsks <= |asks0| && RestOf(asks, asks0[goneAsks..]);
    assert bids0[goneBids] in bids0 && asks0[goneAsks] in asks0;
  }

  /** The quantity of the first orders, up to the end of some order. */
  predicate EndsAnOrder(orders: seq<Order>, v: nat) {
    exists i | 0 < i <= |orders| :: Total(orders[..i]) == v
  }

  /** Each trade uses up its bid or its ask: the quantity traded by then is that of some first orders of a side. */
  ghost predicate UsesUp(bids: seq<Order>, asks: seq<Order>, trades: seq<Trade>) {
    forall k | 0 < k <= |trades| :: EndsAnOrder(bids, Volume(trades[..k])) || EndsAnOrder(asks, Volume(trades[..k]))
  }

  lemma {:induction false} TotalOf(orders: seq<Order>, i: nat)
    requires i <= |orders|
    ensures Total(orders[..i]) + Total(orders[i..]) == Total(orders)
  {
    if i > 0 {
      TotalOf(orders[1..], i - 1);
      assert orders[..i][1..] == orders[1..][..i - 1];
    }
  }

  /** Once the front order is gone, what has been traded is the quantity of the orders that are gone. */
  lemma FrontUsedUp(now: seq<Order>, was: seq<Order>, v: nat)
    requires From(now, was) && now != [] && Total(was) == Total(now) + v
    ensures EndsAnOrder(was, v + now[0].quantity)
  {
    var gone :| 0 <= gone <= |was| && RestOf(now, was[gone..]);
    TotalOf(was, gone + 1);
    assert was[gone + 1..] == now[1..];
  }

  lemma UsedUpStep(bids: seq<Order>, asks: seq<Order>, trades: seq<Trade>, trade: Trade)
    requires UsesUp(bids, asks, trades)
    requires EndsAnOrder(bids, Volume(trades) + trade.quantity) || EndsAnOrder(asks, Volume(trades) + trade.quantity)
    ensures UsesUp(bids, asks, trades + [trade])
  {
    hide EndsAnOrder, Volume;
    VolumeStep(trades, trade);
    var more := trades + [trade];
    forall k | 0 < k <= |more| ensures EndsAnOrder(bids, Volume(more[..k])) || EndsAnOrder(asks, Volume(more[..k])) {
      if k <= |trades| {
        assert more[..k] == trades[..k];
      } else {
        assert more[..k] == more;
      }
    }
  }

  /** What every turn of the matching loop keeps. */
  ghost predicate Matched(bids0: seq<Order>, asks0: seq<Order>, bids: seq<Order>, asks: seq<Order>, trades: seq<Trade>,
                          lastBid: int, lastAsk: int) {
    && Traded(Buy, bids0, bids, Volume(trades), lastBid)
    && Traded(Sell, asks0, asks, Volume(trades), lastAsk)
    && (Volume(trades) > 0 ==> lastBid >= lastAsk)
    && From(bids, bids0) && From(asks, asks0)
    && Settled(Buy, bids0, bids, trades) && Settled(Sell, asks0, asks, trades)
    && (forall t | t in trades :: Fair(t, bids0, asks0))
    && UsesUp(bids0, asks0, trades)
    && |trades| + |bids| + |asks| <= |bids0| + |asks0|
  }

  lemma VolumeStep(trades: seq<Trade>, trade: Trade)
    ensures Volume(trades + [trade]) == Volume(trades) + trade.quantity
  {
    assert (trades + [trade])[..|trades|] == trades;
  }

  lemma MatchedStep(bids0: seq<Order>, asks0: seq<Order>, bids: seq<Order>, asks: seq<Order>, trades: seq<Trade>,
                    lastBid: int, lastAsk: int, trade: Trade)
    requires Matched(bids0, asks0, bids, asks, trades, lastBid, lastAsk)
    requires bids != [] && asks != [] && bids[0].price >= asks[0].price
    requires trade == Trade(asks[0].price, Min(bids[0].quantity, asks[0].quantity), bids[0].id, asks[0].id)
    ensures Matched(bids0, asks0, Filled(bids, trade.quantity), Filled(asks, trade.quantity), trades + [trade],
                    if trade.quantity == 0 then lastBid else bids[0].price,
                    if trade.quantity == 0 then lastAsk else asks[0].price)
  {
    hide Traded, From, Fair, Filled, Settled, Volume, UsesUp, EndsAnOrder;
    TradeUsesUp(bids0, asks0, bids, asks, trades, lastBid, lastAsk, trade);
    TradedStep(Buy, bids0, bids, Volume(trades), lastBid, trade.quantity);
    TradedStep(Sell, asks0, asks, Volume(trades), lastAsk, trade.quantity);
    FilledFrom(bids, bids0, trade.quantity);
    FilledFrom(asks, asks0, trade.quantity);
    FairTrade(trade, bids, asks, bids0, asks0);
    SettledStep(Buy, bids0, bids, trades, trade);
    SettledStep(Sell, asks0, asks, trades, trade);
    VolumeStep(trades, trade);
  }

  /** The smaller of the two front orders is gone. */
  lemma TradeUsesUp(bids0: seq<Order>, asks0: seq<Order>, bids: seq<Order>, asks: seq<Order>, trades: seq<Trade>,
                    lastBid: int, lastAsk: int, trade: Trade)
    requires Matched(bids0, asks0, bids, asks, trades, lastBid, lastAsk) && bids != [] && asks != []
    requires trade.quantity == Min(bids[0].quantity, asks[0].quantity)
    ensures UsesUp(bids0, asks0, trades + [trade])
    ensures |Filled(bids, trade.quantity)| + |Filled(asks, trade.quantity)| < |bids| + |asks|
  {
    hide From, Fair, Settled, UsesUp, EndsAnOrder, Willing, Sorted;
    FrontUsedUp(bids, bids0, Volume(trades));
    FrontUsedUp(asks, asks0, Volume(trades));
    UsedUpStep(bids0, asks0, trades, trade);
  }

  lemma VolumeAt(bids0: seq<Order>, asks0: seq<Order>, bids: seq<Order>, asks: seq<Order>, v: nat,
                 lastBid: int, lastAsk: int, p: int)
    requires Traded(Buy, bids0, bids, v, lastBid) && Traded(Sell, asks0, asks, v, lastAsk)
    requires v > 0 ==> lastBid >= lastAsk
    requires Uncrossed(bids, asks)
    ensures Min(Willing(Buy, bids0, p), Willing(Sell, asks0, p)) <= v
    ensures p == lastAsk ==> Min(Willing(Buy, bids0, p), Willing(Sell, asks0, p)) == v
  {
    NothingLeft(bids, asks, p);
  }

  lemma BestVolume(bids0: seq<Order>, asks0: seq<Order>, bids: seq<Order>, asks: seq<Order>, trades: seq<Trade>,
                   lastBid: int, lastAsk: int)
    requires Matched(bids0, asks0, bids, asks, trades, lastBid, lastAsk)
    requires Uncrossed(bids, asks)
    ensures IsBestVolume(bids0, asks0, Volume(trades))
  {
    hide Traded, From, Fair, Willing, Min, Volume, Uncrossed, Settled, UsesUp;
    forall p {
      VolumeAt(bids0, asks0, bids, asks, Volume(trades), lastBid, lastAsk, p);
    }
    assert Min(Willing(Buy, bids0, lastAsk), Willing(Sell, asks0, lastAsk)) == Volume(trades);
  }

  class OrderBook {
    var bids: seq<Order>
    var asks: seq<Order>

    ghost predicate Valid()
      reads this
    {
      Sorted(Buy, bids) && Sorted(Sell, asks)
    }

    constructor ()
      ensures Valid() && bids == [] && asks == []
    {
      bids, asks := [], [];
    }

    /** Keeps its side sorted; a new order goes ahead of older ones at the same price. */
    method AddOrder(order: Order)
      requires Valid()
      modifies this
      ensures Valid()
      ensures order.side == Buy ==> asks == old(asks) && Inserted(Buy, old(bids), order, bids)
      ensures order.side == Sell ==> bids == old(bids) && Inserted(Sell, old(asks), order, asks)
    {
      if order.side == Buy {
        var at := LowerBound(Buy, bids, order.price);
        InsertedAt(Buy, bids, order, at);
        bids := bids[..at] + [order] + bids[at..];
      } else {
        var at := LowerBound(Sell, asks, order.price);
        InsertedAt(Sell, asks, order, at);
        asks := asks[..at] + [order] + asks[at..];
      }
    }

    method Match() returns (trades: seq<Trade>)
      requires Valid()
      modifies this
      ensures Valid() && Uncrossed(bids, asks)
      ensures Total(bids) + Volume(trades) == Total(old(bids)) && Total(asks) + Volume(trades) == Total(old(asks))
      ensures IsBestVolume(old(bids), old(asks), Volume(trades))
      ensures forall t | t in trades :: Fair(t, old(bids), old(asks))
      ensures From(bids, old(bids)) && From(asks, old(asks))
      ensures Settled(Buy, old(bids), bids, trades) && Settled(Sell, old(asks), asks, trades)
      ensures UsesUp(old(bids), old(asks), trades) && |trades| + |bids| + |asks| <= |old(bids)| + |old(asks)|
    {
      hide Traded, From, Fair, IsBestVolume, Matched, Settled, UsesUp;
      trades := [];
      ghost var lastBid, lastAsk := 0, 0;
      NothingMatched(bids, asks);
      while bids != [] && asks != []
        invariant Matched(old(bids), old(asks), bids, asks, trades, lastBid, lastAsk)
        decreases |bids| + |asks|
      {
        var bestBid, bestAsk := bids[0], asks[0];
        if bestBid.price >= bestAsk.price {
          var quantity := Min(bestBid.quantity, bestAsk.quantity);
          var trade := Trade(bestAsk.price, quantity, bestBid.id, bestAsk.id);
          MatchedStep(old(bids), old(asks), bids, asks, trades, lastBid, lastAsk, trade);
          trades := trades + [trade];
          ghost var restBids, restAsks := Filled(bids, quantity), Filled(asks, quantity);
          bids := bids[0 := bestBid.(quantity := bestBid.quantity - quantity)];
          asks := asks[0 := bestAsk.(quantity := bestAsk.quantity - quantity)];
          if bids[0].quantity == 0 {
            bids := bids[1..];
          }
          if asks[0].quantity == 0 {
            asks := asks[1..];
          }
          assert bids == restBids && asks == restAsks;
          if quantity > 0 {
            lastBid, lastAsk := bestBid.price, bestAsk.price;
          }
        } else {
          break;
        }
      }
      BestVolume(old(bids), old(asks), bids, asks, trades, lastBid, lastAsk);
      MatchedMeans(old(bids), old(asks), bids, asks, trades, lastBid, lastAsk);
    }
  }

  lemma NothingMatched(bids: seq<Order>, asks: seq<Order>)
    requires Sorted(Buy, bids) && Sorted(Sell, asks)
    ensures Matched(bids, asks, bids, asks, [], 0, 0)
  {
    hide Traded, From;
    NothingTraded(Buy, bids);
    NothingTraded(Sell, asks);
  }

  lemma MatchedMeans(bids0: seq<Order>, asks0: seq<Order>, bids: seq<Order>, asks: seq<Order>, trades: seq<Trade>,
                     lastBid: int, lastAsk: int)
    requires Matched(bids0, asks0, bids, asks, trades, lastBid, lastAsk)
    ensures Sorted(Buy, bids) && Total(bids) + Volume(trades) == Total(bids0) && From(bids, bids0)
    ensures Sorted(Sell, asks) && Total(asks) + Volume(trades) == Total(asks0) && From(asks, asks0)
    ensures Settled(Buy, bids0, bids, trades) && Settled(Sell, asks0, asks, trades)
    ensures forall t | t in trades :: Fair(t, bids0, asks0)
    ensures UsesUp(bids0, asks0, trades) && |trades| + |bids| + |asks| <= |bids0| + |asks0|
  {
    hide From, Fair, Settled, UsesUp;
  }

  ghost predicate Inserted(side: Side, was: seq<Order>, order: Order, now: seq<Order>) {
    exists at | 0 <= at <= |was| ::
      && now == was[..at] + [order] + was[at..]
      && (forall j | 0 <= j < at :: Ahead(side, was[j].price, order.price))
      && (forall j | at <= j < |was| :: !Ahead(side, was[j].price, order.price))
  }

  lemma InsertedAt(side: Side, was: seq<Order>, order: Order, at: nat)
    requires Sorted(side, was) && at == LowerBound(side, was, order.price)
    ensures Inserted(side, was, order, was[..at] + [order] + was[at..])
    ensures Sorted(side, was[..at] + [order] + was[at..])
  {
    hide LowerBound;
    forall j | at <= j < |was| ensures !Ahead(side, was[j].price, order.price) {
      assert j == at || !Ahead(side, was[j].price, was[at].price);
    }
    InsertedSorted(side, was, order, at);
  }

  lemma InsertedSorted(side: Side, was: seq<Order>, order: Order, at: nat)
    requires Sorted(side, was) && at <= |was|
    requires forall j | 0 <= j < at :: Ahead(side, was[j].price, order.price)
    requires forall j | at <= j < |was| :: !Ahead(side, was[j].price, order.price)
    ensures Sorted(side, was[..at] + [order] + was[at..])
  {
    var now := was[..at] + [order] + was[at..];
    forall i, j | 0 <= i < j < |now| ensures !Ahead(side, now[j].price, now[i].price) {
      var from := if i < at then i else i - 1;
      var to := if j < at then j else j - 1;
      assert i != at ==> now[i] == was[from];
      assert j != at ==> now[j] == was[to];
    }
  }
}
