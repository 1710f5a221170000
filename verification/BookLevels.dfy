/** One side of an L3 book: price levels whose intrusive queues are the arrival-ordered orders at their price. */
module BookLevels {
  import opened BigEndian
  import opened ObjectPools

  datatype BookSide = Bid | Ask

  /** Links point to earlier orders through `prev` and to later ones through `next`. */
  datatype BookOrder = BookOrder(ref: u64, price: u32, shares: u32, locate: u16, side: BookSide, prev: int, next: int)

  datatype PriceLevel = PriceLevel(price: u32, orderCount: nat, shares: nat, head: int, tail: int)

  /** The live orders of the pool, by slot. */
  type Memory = map<nat, BookOrder>

  // ---- The flat list, and what a level stands for ----

  ghost predicate AllIn(mem: Memory, orders: seq<nat>) {
    forall k | 0 <= k < |orders| :: orders[k] in mem
  }

  /** The orders of one side and price, in arrival order. */
  ghost function Queue(mem: Memory, orders: seq<nat>, side: BookSide, price: u32): seq<nat>
    requires AllIn(mem, orders)
  {
    if orders == [] then []
    else
      var last := orders[|orders| - 1];
      Queue(mem, orders[..|orders| - 1], side, price)
      + if mem[last].side == side && mem[last].price == price then [last] else []
  }

  ghost function Shares(mem: Memory, q: seq<nat>): nat
    requires AllIn(mem, q)
  {
    if q == [] then 0 else Shares(mem, q[..|q| - 1]) + mem[q[|q| - 1]].shares
  }

  function First(q: seq<nat>): int { if q == [] then NULL else q[0] }

  function Last(q: seq<nat>): int { if q == [] then NULL else q[|q| - 1] }

  /** prev and next thread the queue in order, with nothing before or after it. */
  ghost predicate Linked(mem: Memory, q: seq<nat>)
    requires AllIn(mem, q)
  {
    && (forall k {:trigger mem[q[k]]} | 0 <= k < |q| :: mem[q[k]].prev == if k == 0 then NULL else q[k - 1])
    && (forall k {:trigger mem[q[k]]} | 0 <= k < |q| :: mem[q[k]].next == if k == |q| - 1 then NULL else q[k + 1])
  }

  ghost predicate LevelOk(mem: Memory, level: PriceLevel, q: seq<nat>) {
    && AllIn(mem, q) && Distinct(q) && Linked(mem, q)
    && level.head == First(q) && level.tail == Last(q)
    && level.orderCount == |q| && level.shares == Shares(mem, q)
  }

  /** In a side's list of levels, the later of two is the better. */
  predicate Better(side: BookSide, a: u32, b: u32) {
    if side == Bid then a > b else a < b
  }

  predicate Sorted(side: BookSide, levels: seq<PriceLevel>) {
    forall i, j | 0 <= i < j < |levels| :: Better(side, levels[j].price, levels[i].price)
  }

  predicate HasLevel(levels: seq<PriceLevel>, price: u32) {
    exists i | 0 <= i < |levels| :: levels[i].price == price
  }

  /** The levels of a side describe the flat list; a level may be empty. */
  ghost predicate SideOk(mem: Memory, orders: seq<nat>, side: BookSide, levels: seq<PriceLevel>)
    requires AllIn(mem, orders)
  {
    && Sorted(side, levels)
    && (forall i | 0 <= i < |levels| :: LevelOk(mem, levels[i], Queue(mem, orders, side, levels[i].price)))
    && (forall k | 0 <= k < |orders| && mem[orders[k]].side == side :: HasLevel(levels, mem[orders[k]].price))
  }

  predicate NoneEmpty(levels: seq<PriceLevel>) {
    forall i | 0 <= i < |levels| :: levels[i].orderCount > 0
  }

  // ---- The queue of a side and price ----

  lemma {:induction false} QueueIn(mem: Memory, orders: seq<nat>, side: BookSide, price: u32, o: nat)
    requires AllIn(mem, orders)
    ensures o in Queue(mem, orders, side, price) <==> o in orders && mem[o].side == side && mem[o].price == price
    ensures AllIn(mem, Queue(mem, orders, side, price))
  {
    if orders != [] {
      var before, last := orders[..|orders| - 1], orders[|orders| - 1];
      QueueIn(mem, before, side, price, o);
      assert o in orders <==> o in before || o == last;
    }
  }

  lemma {:induction false} QueueDistinct(mem: Memory, orders: seq<nat>, side: BookSide, price: u32)
    requires AllIn(mem, orders) && Distinct(orders)
    ensures Distinct(Queue(mem, orders, side, price))
  {
    if orders != [] {
      var before, last := orders[..|orders| - 1], orders[|orders| - 1];
      QueueDistinct(mem, before, side, price);
      QueueIn(mem, before, side, price, last);
    }
  }

  /** Links and shares do not decide who queues where. */
  ghost predicate SamePlaces(mem: Memory, now: Memory, orders: seq<nat>) {
    AllIn(mem, orders) && AllIn(now, orders) &&
    forall k | 0 <= k < |orders| :: now[orders[k]].side == mem[orders[k]].side
        && now[orders[k]].price == mem[orders[k]].price
  }

  lemma {:induction false} QueueFrame(mem: Memory, now: Memory, orders: seq<nat>, side: BookSide, price: u32)
    requires SamePlaces(mem, now, orders)
    ensures Queue(now, orders, side, price) == Queue(mem, orders, side, price)
  {
    if orders != [] {
      QueueFrame(mem, now, orders[..|orders| - 1], side, price);
    }
  }

  lemma QueueAppend(mem: Memory, orders: seq<nat>, p: nat, side: BookSide, price: u32)
    requires AllIn(mem, orders) && p in mem
    ensures AllIn(mem, orders + [p])
    ensures Queue(mem, orders + [p], side, price) ==
      Queue(mem, orders, side, price) + if mem[p].side == side && mem[p].price == price then [p] else []
  {
    assert (orders + [p])[..|orders|] == orders;
  }

  /** `s` with `p` taken out. */
  function Without(s: seq<nat>, p: nat): seq<nat> {
    if s == [] then []
    else if s[|s| - 1] == p then s[..|s| - 1]
    else Without(s[..|s| - 1], p) + [s[|s| - 1]]
  }

  lemma {:induction false} WithoutAt(s: seq<nat>, p: nat, k: nat)
    requires Distinct(s) && k < |s| && s[k] == p
    ensures Without(s, p) == s[..k] + s[k + 1..]
  {
    if s[|s| - 1] != p {
      WithoutAt(s[..|s| - 1], p, k);
      assert s[..|s| - 1][k + 1..] + [s[|s| - 1]] == s[k + 1..];
    }
  }

  lemma {:induction false} WithoutAbsent(s: seq<nat>, p: nat)
    requires p !in s
    ensures Without(s, p) == s
  {
    if s != [] {
      WithoutAbsent(s[..|s| - 1], p);
    }
  }

  lemma WithoutAppend(s: seq<nat>, p: nat, x: nat)
    ensures Without(s + [x], p) == if x == p then s else Without(s, p) + [x]
  {
    assert (s + [x])[..|s|] == s;
  }

  lemma {:induction false} WithoutIn(s: seq<nat>, p: nat, o: nat)
    requires Distinct(s)
    ensures o in Without(s, p) <==> o in s && o != p
    ensures Distinct(Without(s, p))
    ensures p in s ==> |Without(s, p)| == |s| - 1
  {
    if k :| 0 <= k < |s| && s[k] == p {
      WithoutAt(s, p, k);
      if j :| 0 <= j < |s| && s[j] == o && o != p {
        assert Without(s, p)[if j < k then j else j - 1] == o;
      }
    } else {
      WithoutAbsent(s, p);
    }
  }

  lemma WithoutAll(s: seq<nat>, p: nat)
    requires Distinct(s)
    ensures Distinct(Without(s, p))
    ensures forall k | 0 <= k < |Without(s, p)| :: Without(s, p)[k] in s && Without(s, p)[k] != p
  {
    WithoutIn(s, p, p);
    forall k | 0 <= k < |Without(s, p)| ensures Without(s, p)[k] in s && Without(s, p)[k] != p {
      WithoutIn(s, p, Without(s, p)[k]);
    }
  }

  lemma {:induction false} QueueWithout(mem: Memory, orders: seq<nat>, p: nat, side: BookSide, price: u32)
    requires AllIn(mem, orders) && Distinct(orders)
    ensures AllIn(mem, Without(orders, p))
    ensures Queue(mem, Without(orders, p), side, price) == Without(Queue(mem, orders, side, price), p)
  {
    if orders != [] {
      var before, last := orders[..|orders| - 1], orders[|orders| - 1];
      var q := Queue(mem, before, side, price);
      if last == p {
        QueueIn(mem, before, side, price, p);
        WithoutAbsent(q, p);
      } else {
        QueueWithout(mem, before, p, side, price);
        QueueAppend(mem, Without(before, p), last, side, price);
      }
      WithoutAppend(q, p, last);
      assert q + [] == q && Without(q, p) + [] == Without(q, p);
    }
  }
}
