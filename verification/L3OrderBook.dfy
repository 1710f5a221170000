/** L3OrderBook: one instrument's book, refining the flat arrival-ordered list of its live orders. */
module L3OrderBooks {
  import opened Basics
  import opened BigEndian
  import opened ObjectPools
  import opened BookLevels
  import opened BookSteps
  import opened BookSides

  lemma PushedPrice(level: PriceLevel, p: nat, shares: u32)
    ensures var l := Pushed(level, p, shares); l.price == level.price && l.orderCount == level.orderCount + 1
  {
  }

  function Opposite(side: BookSide): BookSide { if side == Bid then Ask else Bid }

  /** Both sides describe `orders`, and no level is empty. */
  ghost predicate BookOk(mem: Memory, orders: seq<nat>, bids: seq<PriceLevel>, asks: seq<PriceLevel>) {
    && AllIn(mem, orders) && Distinct(orders)
    && SideOk(mem, orders, Bid, bids) && NoneEmpty(bids)
    && SideOk(mem, orders, Ask, asks) && NoneEmpty(asks)
  }

  // ---- What the flat list says ----

  /** The distinct prices on a side better than `price`. */
  ghost function BetterPrices(mem: Memory, orders: seq<nat>, side: BookSide, price: u32): set<u32>
    requires AllIn(mem, orders)
  {
    set k | 0 <= k < |orders| && mem[orders[k]].side == side && Better(side, mem[orders[k]].price, price) ::
        mem[orders[k]].price
  }

  /** `best` is the side's best price with its total size and order count, or None if the side is empty. */
  ghost predicate IsBest(mem: Memory, orders: seq<nat>, side: BookSide, best: Option<PriceLevel>)
    requires AllIn(mem, orders)
  {
    match best
    case None => forall k | 0 <= k < |orders| :: mem[orders[k]].side != side
    case Some(level) =>
      var q := Queue(mem, orders, side, level.price);
      && q != [] && AllIn(mem, q)
      && (forall k | 0 <= k < |orders| && mem[orders[k]].side == side ::
          !Better(side, mem[orders[k]].price, level.price))
      && level.shares == Shares(mem, q) && level.orderCount == |q|
  }

  ghost predicate Crosses(mem: Memory, orders: seq<nat>)
    requires AllIn(mem, orders)
  {
    exists b, a | 0 <= b < |orders| && 0 <= a < |orders| ::
      mem[orders[b]].side == Bid && mem[orders[a]].side == Ask && mem[orders[b]].price >= mem[orders[a]].price
  }

  // ---- From levels to the flat list ----

  function PricesAfter(levels: seq<PriceLevel>, i: nat): set<u32>
    requires i < |levels|
  {
    set j | i < j < |levels| :: levels[j].price
  }

  lemma {:induction false} PricesAfterCount(side: BookSide, levels: seq<PriceLevel>, i: nat)
    requires Sorted(side, levels) && i < |levels|
    ensures |PricesAfter(levels, i)| == |levels| - 1 - i
    decreases |levels| - i
  {
    if i < |levels| - 1 {
      PricesAfterCount(side, levels, i + 1);
      assert PricesAfter(levels, i) == PricesAfter(levels, i + 1) + {levels[i + 1].price};
    } else {
      assert PricesAfter(levels, i) == {};
    }
  }

  /** A level that is not empty has an order at its price. */
  lemma OrderAtLevel(mem: Memory, orders: seq<nat>, side: BookSide, levels: seq<PriceLevel>, j: nat) returns (k: nat)
    requires AllIn(mem, orders) && SideOk(mem, orders, side, levels) && NoneEmpty(levels) && j < |levels|
    ensures k < |orders| && mem[orders[k]].side == side && mem[orders[k]].price == levels[j].price
    ensures Queue(mem, orders, side, levels[j].price) != []
  {
    var q := Queue(mem, orders, side, levels[j].price);
    NoneQueued(mem, levels[j], q);
    QueueIn(mem, orders, side, levels[j].price, q[0]);
    k :| 0 <= k < |orders| && orders[k] == q[0];
  }

  /** A level's distance from the back counts the strictly better prices. */
  lemma DepthCounts(mem: Memory, orders: seq<nat>, side: BookSide, levels: seq<PriceLevel>, i: nat)
    requires AllIn(mem, orders) && SideOk(mem, orders, side, levels) && NoneEmpty(levels) && i < |levels|
    ensures |BetterPrices(mem, orders, side, levels[i].price)| == |levels| - 1 - i
  {
    hide LevelOk, Queue;
    var better := BetterPrices(mem, orders, side, levels[i].price);
    forall price | price in PricesAfter(levels, i) ensures price in better {
      var j: nat :| i < j < |levels| && levels[j].price == price;
      var k := OrderAtLevel(mem, orders, side, levels, j);
      assert Better(side, mem[orders[k]].price, levels[i].price);
    }
    forall price | price in better ensures price in PricesAfter(levels, i) {
      var j :| 0 <= j < |levels| && levels[j].price == price;
      assert i < j;
    }
    assert better == PricesAfter(levels, i);
    PricesAfterCount(side, levels, i);
  }

  lemma LastIsBest(mem: Memory, orders: seq<nat>, side: BookSide, levels: seq<PriceLevel>)
    requires AllIn(mem, orders) && SideOk(mem, orders, side, levels) && NoneEmpty(levels)
    ensures IsBest(mem, orders, side, if levels == [] then None else Some(levels[|levels| - 1]))
  {
    if levels != [] {
      var level := levels[|levels| - 1];
      var _ := OrderAtLevel(mem, orders, side, levels, |levels| - 1);
      forall k | 0 <= k < |orders| && mem[orders[k]].side == side
          ensures !Better(side, mem[orders[k]].price, level.price) {
        var j :| 0 <= j < |levels| && levels[j].price == mem[orders[k]].price;
        assert j < |levels| - 1 ==> Better(side, level.price, levels[j].price);
      }
    }
  }

  // ---- The three events ----

  lemma AddKeeps(mem: Memory, orders: seq<nat>, p: nat, levels: seq<PriceLevel>, i: nat, others: seq<PriceLevel>)
    requires AllIn(mem, orders) && Distinct(orders) && p in mem && p !in orders
    requires SideOk(mem, orders, mem[p].side, levels) && SideOk(mem, orders, Opposite(mem[p].side), others)
    requires i < |levels| && levels[i].price == mem[p].price
    ensures levels[i].tail == NULL || levels[i].tail in mem
    ensures var now, after := Appended(mem, levels[i], p), orders + [p];
      && AllIn(now, after) && Distinct(after)
      && SideOk(now, after, mem[p].side, levels[i := Pushed(levels[i], p, mem[p].shares)])
      && SideOk(now, after, Opposite(mem[p].side), others)
  {
    hide LevelOk, Queue, Appended;
    var side, price, level := mem[p].side, mem[p].price, levels[i];
    var q := Queue(mem, orders, side, price);
    QueueIn(mem, orders, side, price, p);
    LevelAppend(mem, level, q, p);
    if level.tail != NULL {
      QueueIn(mem, orders, side, price, level.tail);
    }
    AppendedIs(mem, level, p);
    var now, after := Appended(mem, level, p), orders + [p];
    forall at, pr: u32
      ensures Queue(now, after, at, pr) == Queue(mem, orders, at, pr) + if at == side && pr == price then [p] else []
    {
      QueueFrame(mem, now, after, at, pr);
      QueueAppend(mem, orders, p, at, pr);
    }
    assert forall s: seq<nat> :: s + [] == s;
    ChangeSide(mem, now, orders, after, side, levels, i, Pushed(level, p, mem[p].shares));
    OtherSide(mem, now, orders, after, side, price, Opposite(side), others);
  }

  lemma ReduceKeeps(mem: Memory, orders: seq<nat>, p: nat, shares: u32, levels: seq<PriceLevel>, i: nat,
      others: seq<PriceLevel>)
    requires AllIn(mem, orders) && Distinct(orders) && p in orders && shares <= mem[p].shares
    requires SideOk(mem, orders, mem[p].side, levels) && SideOk(mem, orders, Opposite(mem[p].side), others)
    requires i < |levels| && levels[i].price == mem[p].price
    ensures levels[i].shares >= shares
    ensures var now := mem[p := mem[p].(shares := mem[p].shares - shares)];
      && AllIn(now, orders)
      && SideOk(now, orders, mem[p].side, levels[i := levels[i].(shares := levels[i].shares - shares)])
      && SideOk(now, orders, Opposite(mem[p].side), others)
  {
    hide LevelOk, Queue;
    var side, price, level := mem[p].side, mem[p].price, levels[i];
    var q := Queue(mem, orders, side, price);
    QueueIn(mem, orders, side, price, p);
    LevelReduce(mem, level, q, p, shares);
    var now := mem[p := mem[p].(shares := mem[p].shares - shares)];
    forall at, pr: u32 ensures Queue(now, orders, at, pr) == Queue(mem, orders, at, pr) {
      QueueFrame(mem, now, orders, at, pr);
    }
    ChangeSide(mem, now, orders, orders, side, levels, i, level.(shares := level.shares - shares));
    OtherSide(mem, now, orders, orders, side, price, Opposite(side), others);
  }

  lemma RemoveKeeps(mem: Memory, orders: seq<nat>, p: nat, levels: seq<PriceLevel>, i: nat, others: seq<PriceLevel>)
    requires AllIn(mem, orders) && Distinct(orders) && p in orders
    requires SideOk(mem, orders, mem[p].side, levels) && SideOk(mem, orders, Opposite(mem[p].side), others)
    requires i < |levels| && levels[i].price == mem[p].price
    ensures (mem[p].prev == NULL || mem[p].prev in mem) && (mem[p].next == NULL || mem[p].next in mem)
    ensures mem[p].prev != p && mem[p].next != p
    ensures levels[i].orderCount > 0 && levels[i].shares >= mem[p].shares
    ensures var now, after := Unlinked(mem, p), Without(orders, p);
      && AllIn(now, after) && Distinct(after)
      && SideOk(now, after, mem[p].side, levels[i := Pulled(levels[i], mem[p])])
      && SideOk(now, after, Opposite(mem[p].side), others)
  {
    hide LevelOk, Queue, Unlinked, Without;
    var side, price, level := mem[p].side, mem[p].price, levels[i];
    var q := Queue(mem, orders, side, price);
    QueueIn(mem, orders, side, price, p);
    LevelUnlink(mem, level, q, p);
    forall x | x in q ensures x in orders && mem[x].side == side && mem[x].price == price {
      QueueIn(mem, orders, side, price, x);
    }
    UnlinkedIs(mem, p);
    var now, after := Unlinked(mem, p), Without(orders, p);
    WithoutAll(orders, p);
    assert SamePlaces(mem, now, orders) && SamePlaces(mem, now, after);
    forall at, pr: u32
      ensures Queue(now, after, at, pr) == if at == side
          && pr == price then Without(q, p) else Queue(mem, orders, at, pr)
    {
      QueueFrame(mem, now, after, at, pr);
      QueueWithout(mem, orders, p, at, pr);
      QueueIn(mem, orders, at, pr, p);
      if at != side || pr != price {
        WithoutAbsent(Queue(mem, orders, at, pr), p);
      }
    }
    ChangeSide(mem, now, orders, after, side, levels, i, Pulled(level, mem[p]));
    OtherSide(mem, now, orders, after, side, price, Opposite(side), others);
  }

  // ---- The book ----

  /** Only links changed, and only in the orders of this book. */
  ghost predicate LinksOnly(mem: Memory, now: Memory, orders: seq<nat>) {
    && now.Keys == mem.Keys
    && (forall x | x in mem :: now[x].(prev := NULL, next := NULL) == mem[x].(prev := NULL, next := NULL))
    && (forall x | x in mem && x !in orders :: now[x] == mem[x])
  }

  lemma SamePlace(mem: Memory, now: Memory, orders: seq<nat>, p: nat)
    requires LinksOnly(mem, now, orders) && p in mem
    ensures p in now && now[p].side == mem[p].side && now[p].price == mem[p].price
  {
    assert now[p].(prev := NULL, next := NULL) == mem[p].(prev := NULL, next := NULL);
  }

  class L3OrderBook {
    var bids: seq<PriceLevel> // ascending price: best bid at the back
    var asks: seq<PriceLevel> // descending price: best ask at the back
    ghost var orders: seq<nat> // the live orders, in arrival order

    ghost predicate Valid(mem: Memory)
      reads this
    {
      BookOk(mem, orders, bids, asks)
    }

    constructor ()
      ensures orders == [] && bids == [] && asks == []
    {
      bids, asks, orders := [], [], [];
    }

    function SideOf(side: BookSide): seq<PriceLevel>
      reads this
    {
      if side == Bid then bids else asks
    }

    method SetSide(side: BookSide, levels: seq<PriceLevel>)
      modifies `bids, `asks
      ensures SideOf(side) == levels && SideOf(Opposite(side)) == old(SideOf(Opposite(side)))
    {
      if side == Bid {
        bids := levels;
      } else {
        asks := levels;
      }
    }

    /** Appends to the back of the price level's queue; the result counts the better prices. */
    method Add(pool: ObjectPool<BookOrder>, p: nat) returns (depth: nat)
      requires pool.Valid() && Valid(pool.mem) && p in pool.mem && p !in orders
      modifies this, pool`cells, pool`mem
      ensures pool.Valid() && pool.freeList == old(pool.freeList) && Valid(pool.mem)
      ensures orders == old(orders) + [p] && LinksOnly(old(pool.mem), pool.mem, orders)
      ensures depth == |BetterPrices(pool.mem, orders, pool.mem[p].side, pool.mem[p].price)|
    {
      hide SideOk, Appended, BetterPrices, ObjectPool.Valid, LinksOnly, Distinct, Pushed;
      ghost var mem := pool.mem;
      var order := pool.Get(p);
      var levels := SideOf(order.side);
      var i := LowerBound(levels, order.side, order.price);
      if i == |levels| || levels[i].price != order.price {
        InsertSide(mem, orders, order.side, levels, order.price);
        levels := Inserted(levels, i, EmptyLevel(order.price));
      }
      var level := levels[i];
      PushedPrice(level, p, order.shares);
      AddKeeps(mem, orders, p, levels, i, SideOf(Opposite(order.side)));
      TailIsElsewhere(mem, orders, p, levels, i);
      AppendedLinksOnly(mem, orders, p, level);
      level := AppendToLevel(pool, p, level);
      SamePlace(mem, pool.mem, orders + [p], p);
      levels := levels[i := level];
      SetSide(order.side, levels);
      orders := orders + [p];
      DepthCounts(pool.mem, orders, order.side, levels, i);
      depth := |levels| - 1 - i;
    }

    /** The level an order of this book is on. */
    method FindLevel(order: BookOrder, ghost pool: ObjectPool<BookOrder>, ghost p: nat) returns (i: nat)
      requires Valid(pool.mem) && p in orders && order == pool.mem[p]
      ensures i < |SideOf(order.side)| && SideOf(order.side)[i].price == order.price
    {
      ghost var k :| 0 <= k < |orders| && orders[k] == p;
      FoundAt(SideOf(order.side), order.side, order.price);
      i := LowerBound(SideOf(order.side), order.side, order.price);
    }

    /** A smaller order in the same place of its queue. */
    method Reduce(pool: ObjectPool<BookOrder>, p: nat, shares: u32) returns (depth: nat)
      requires pool.Valid() && Valid(pool.mem) && p in orders && shares <= pool.mem[p].shares
      modifies `bids, `asks, pool`cells, pool`mem
      ensures pool.Valid() && pool.freeList == old(pool.freeList) && Valid(pool.mem)
      ensures var o := old(pool.mem)[p]; pool.mem == old(pool.mem)[p := o.(shares := o.shares - shares)]
      ensures depth == |BetterPrices(pool.mem, orders, pool.mem[p].side, pool.mem[p].price)|
    {
      hide SideOk, BetterPrices, ObjectPool.Valid, Distinct;
      var order := pool.Get(p);
      var i := FindLevel(order, pool, p);
      var levels := SideOf(order.side);
      ReduceKeeps(pool.mem, orders, p, shares, levels, i, SideOf(Opposite(order.side)));
      levels := levels[i := levels[i].(shares := levels[i].shares - shares)];
      SetSide(order.side, levels);
      pool.Put(p, order.(shares := order.shares - shares));
      DepthCounts(pool.mem, orders, order.side, levels, i);
      depth := |levels| - 1 - i;
    }

    /** The order goes, and its level too if it was the only one there. */
    method Remove(pool: ObjectPool<BookOrder>, p: nat) returns (depth: nat)
      requires pool.Valid() && Valid(pool.mem) && p in orders
      modifies this, pool`cells, pool`mem
      ensures pool.Valid() && pool.freeList == old(pool.freeList) && Valid(pool.mem)
      ensures orders == Without(old(orders), p) && LinksOnly(old(pool.mem), pool.mem, old(orders))
      ensures var o := old(pool.mem)[p]; depth == |BetterPrices(old(pool.mem), old(orders), o.side, o.price)|
    {
      hide SideOk, BetterPrices, ObjectPool.Valid, Without, Unlinked, AfterUnlink, LinksOnly, Distinct;
      ghost var mem := pool.mem;
      var order := pool.Get(p);
      var i := FindLevel(order, pool, p);
      var levels := SideOf(order.side);
      depth := |levels| - 1 - i;
      DepthCounts(mem, orders, order.side, levels, i);
      RemoveKeeps(mem, orders, p, levels, i, SideOf(Opposite(order.side)));
      UnlinkedLinksOnly(mem, orders, p, levels, i);
      var level := TakeFromLevel(pool, p, levels[i]);
      levels := levels[i := level];
      orders := Without(orders, p);
      if level.orderCount == 0 {
        EraseSide(pool.mem, orders, order.side, levels, i);
        levels := Erased(levels, i);
      }
      SetSide(order.side, levels);
    }

    function BestBid(): Option<PriceLevel>
      reads this
    {
      if bids == [] then None else Some(bids[|bids| - 1])
    }

    function BestAsk(): Option<PriceLevel>
      reads this
    {
      if asks == [] then None else Some(asks[|asks| - 1])
    }

    predicate Crossed()
      reads this
    {
      bids != [] && asks != [] && bids[|bids| - 1].price >= asks[|asks| - 1].price
    }

    /** The queries agree with the flat list. */
    lemma QueriesAreRight(mem: Memory)
      requires Valid(mem)
      ensures IsBest(mem, orders, Bid, BestBid()) && IsBest(mem, orders, Ask, BestAsk())
      ensures Crossed() <==> Crosses(mem, orders)
    {
      hide LevelOk, Queue;
      LastIsBest(mem, orders, Bid, bids);
      LastIsBest(mem, orders, Ask, asks);
      if bids != [] && asks != [] {
        var b := OrderAtLevel(mem, orders, Bid, bids, |bids| - 1);
        var a := OrderAtLevel(mem, orders, Ask, asks, |asks| - 1);
      }
    }
  }

  /** The pointer writes that put an order at the back of its level. */
  method AppendToLevel(pool: ObjectPool<BookOrder>, p: nat, level: PriceLevel) returns (after: PriceLevel)
    requires pool.Valid() && p in pool.mem && (level.tail == NULL || level.tail in pool.mem) && level.tail != p
    modifies pool`cells, pool`mem
    ensures pool.Valid() && pool.freeList == old(pool.freeList)
    ensures pool.mem == Appended(old(pool.mem), level, p) && after == Pushed(level, p, old(pool.mem)[p].shares)
  {
    hide ObjectPool.Valid, Appended;
    ghost var mem := pool.mem;
    var order := pool.Get(p);
    after := level;
    pool.Put(p, order.(prev := level.tail, next := NULL));
    if level.tail != NULL {
      pool.Put(level.tail, pool.Get(level.tail).(next := p));
    } else {
      after := after.(head := p);
    }
    after := after.(tail := p, orderCount := after.orderCount + 1, shares := after.shares + order.shares);
    AppendedBySteps(mem, level, p);
  }

  /** The pointer writes that take an order out of its level, wherever it stands. */
  method TakeFromLevel(pool: ObjectPool<BookOrder>, p: nat, level: PriceLevel) returns (after: PriceLevel)
    requires pool.Valid() && p in pool.mem
    requires var o := pool.mem[p];
      && (o.prev == NULL || o.prev in pool.mem) && (o.next == NULL || o.next in pool.mem)
      && o.prev != p && o.next != p && level.orderCount > 0 && level.shares >= o.shares
    modifies pool`cells, pool`mem
    ensures pool.Valid() && pool.freeList == old(pool.freeList)
    ensures pool.mem == Unlinked(old(pool.mem), p) && after == Pulled(level, old(pool.mem)[p])
  {
    hide ObjectPool.Valid, Unlinked;
    ghost var mem := pool.mem;
    var order := pool.Get(p);
    after := level;
    if order.prev != NULL {
      pool.Put(order.prev, pool.Get(order.prev).(next := order.next));
    } else {
      after := after.(head := order.next);
    }
    if order.next != NULL {
      pool.Put(order.next, pool.Get(order.next).(prev := order.prev));
    } else {
      after := after.(tail := order.prev);
    }
    after := after.(orderCount := after.orderCount - 1, shares := after.shares - order.shares);
    pool.Put(p, pool.Get(p).(prev := NULL, next := NULL));
    UnlinkedBySteps(mem, p);
  }

  lemma UnlinkedBySteps(mem: Memory, p: nat)
    requires p in mem && (mem[p].prev == NULL || mem[p].prev in mem) && (mem[p].next == NULL || mem[p].next in mem)
    ensures var o := mem[p];
      var m1 := if o.prev == NULL then mem else mem[o.prev as nat := mem[o.prev].(next := o.next)];
      var m2 := if o.next == NULL then m1 else m1[o.next as nat := m1[o.next].(prev := o.prev)];
      Unlinked(mem, p) == m2[p := m2[p].(prev := NULL, next := NULL)]
  {
  }

  lemma UnlinkedLinksOnly(mem: Memory, orders: seq<nat>, p: nat, levels: seq<PriceLevel>, i: nat)
    requires AllIn(mem, orders) && Distinct(orders) && p in orders && SideOk(mem, orders, mem[p].side, levels)
    requires i < |levels| && levels[i].price == mem[p].price
    ensures (mem[p].prev == NULL || mem[p].prev in orders) && (mem[p].next == NULL || mem[p].next in orders)
    ensures LinksOnly(mem, Unlinked(mem, p), orders)
  {
    hide LevelOk, Queue, Unlinked;
    var side, price := mem[p].side, mem[p].price;
    var q := Queue(mem, orders, side, price);
    QueueIn(mem, orders, side, price, p);
    LevelUnlink(mem, levels[i], q, p);
    if mem[p].prev != NULL {
      QueueIn(mem, orders, side, price, mem[p].prev);
    }
    if mem[p].next != NULL {
      QueueIn(mem, orders, side, price, mem[p].next);
    }
    UnlinkedIs(mem, p);
  }

  lemma AppendedLinksOnly(mem: Memory, orders: seq<nat>, p: nat, level: PriceLevel)
    requires p in mem && p !in orders && AllIn(mem, orders) && (level.tail == NULL || level.tail in orders)
    ensures LinksOnly(mem, Appended(mem, level, p), orders + [p])
  {
    hide Appended;
    AppendedIs(mem, level, p);
  }

  lemma AppendedBySteps(mem: Memory, level: PriceLevel, p: nat)
    requires p in mem && (level.tail == NULL || level.tail in mem)
    ensures var m := mem[p := mem[p].(prev := level.tail, next := NULL)];
      Appended(mem, level, p) == if level.tail == NULL then m else m[level.tail as nat := m[level.tail].(next := p)]
  {
  }

  lemma TailIsElsewhere(mem: Memory, orders: seq<nat>, p: nat, levels: seq<PriceLevel>, i: nat)
    requires AllIn(mem, orders) && p in mem && p !in orders && SideOk(mem, orders, mem[p].side, levels) && i < |levels|
    ensures levels[i].tail == NULL || (levels[i].tail in orders && levels[i].tail != p)
  {
    var q := Queue(mem, orders, mem[p].side, levels[i].price);
    if q != [] {
      QueueIn(mem, orders, mem[p].side, levels[i].price, q[|q| - 1]);
    }
  }
}
