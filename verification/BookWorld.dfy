/** All books, the index and the pool together: one invariant, and the flat lists they stand for. */
module BookWorld {
  import opened BigEndian
  import opened ObjectPools
  import opened BookLevels
  import opened BookSteps
  import opened L3OrderBooks

  /** What one L3OrderBook holds. */
  datatype BookView = BookView(orders: seq<nat>, bids: seq<PriceLevel>, asks: seq<PriceLevel>)

  type Index = map<u64, nat>

  ghost predicate ViewOk(mem: Memory, v: BookView) {
    BookOk(mem, v.orders, v.bids, v.asks)
  }

  /** Each book is sound and holds only its own instrument's orders. */
  ghost predicate BooksOk(mem: Memory, views: seq<BookView>) {
    forall l | 0 <= l < |views| :: ViewOk(mem, views[l]) && OwnOrders(mem, views[l], l)
  }

  ghost predicate OwnOrders(mem: Memory, v: BookView, l: nat) {
    forall k | 0 <= k < |v.orders| :: v.orders[k] in mem && mem[v.orders[k]].locate == l
  }

  /** The index is a bijection between its keys and the pool's live slots, each linked in its own book. */
  ghost predicate IndexOk(mem: Memory, idx: Index, views: seq<BookView>) {
    && (forall r | r in idx ::
          && idx[r] in mem && mem[idx[r]].ref == r
          && mem[idx[r]].locate < |views| && idx[r] in views[mem[idx[r]].locate].orders)
    && (forall x | x in mem :: mem[x].ref in idx && idx[mem[x].ref] == x)
  }

  ghost predicate Consistent(mem: Memory, idx: Index, views: seq<BookView>) {
    BooksOk(mem, views) && IndexOk(mem, idx, views)
  }

  // ---- Frames ----

  /** A book whose orders are untouched, cell for cell. */
  lemma ViewFrame(mem: Memory, now: Memory, v: BookView)
    requires ViewOk(mem, v)
    requires forall k | 0 <= k < |v.orders| :: v.orders[k] in now && now[v.orders[k]] == mem[v.orders[k]]
    ensures ViewOk(now, v)
  {
    SideFrame(mem, now, v.orders, Bid, v.bids);
    SideFrame(mem, now, v.orders, Ask, v.asks);
  }

  lemma SideFrame(mem: Memory, now: Memory, orders: seq<nat>, side: BookSide, levels: seq<PriceLevel>)
    requires AllIn(mem, orders) && AllIn(now, orders) && SideOk(mem, orders, side, levels)
    requires forall k | 0 <= k < |orders| :: now[orders[k]] == mem[orders[k]]
    ensures SideOk(now, orders, side, levels)
  {
    hide LevelOk, Queue;
    forall j | 0 <= j < |levels| ensures LevelOk(now, levels[j], Queue(now, orders, side, levels[j].price)) {
      var q := Queue(mem, orders, side, levels[j].price);
      QueueFrame(mem, now, orders, side, levels[j].price);
      QueueIn(mem, orders, side, levels[j].price, 0);
      forall k | 0 <= k < |q| ensures q[k] in now && now[q[k]] == mem[q[k]] {
        QueueIn(mem, orders, side, levels[j].price, q[k]);
      }
      LevelFrame(mem, now, levels[j], q);
    }
  }

  /** The other books do not notice a change confined to one book's orders (and to slots no book holds). */
  lemma OtherBooks(mem: Memory, now: Memory, views: seq<BookView>, l: nat, v: BookView)
    requires BooksOk(mem, views) && l < |views|
    requires forall x | x in mem && mem[x].locate != l :: x in now && now[x] == mem[x]
    requires ViewOk(now, v) && OwnOrders(now, v, l)
    ensures BooksOk(now, views[l := v])
  {
    hide ViewOk;
    var t := views[l := v];
    forall m | 0 <= m < |t| ensures ViewOk(now, t[m]) && OwnOrders(now, t[m], m) {
      if m != l {
        assert OwnOrders(mem, views[m], m);
        ViewFrame(mem, now, views[m]);
      }
    }
  }

  // ---- The three changes ----

  /** A new order, acquired in slot `p`, added to book `l` and indexed. */
  lemma AddConsistent(mem: Memory, idx: Index, views: seq<BookView>, p: nat, o: BookOrder, now: Memory, v: BookView)
    requires Consistent(mem, idx, views) && o.locate < |views|
    requires p !in mem && o.ref !in idx
    requires v.orders == views[o.locate].orders + [p]
    requires LinksOnly(mem[p := o], now, v.orders) && ViewOk(now, v)
    ensures Consistent(now, idx[o.ref := p], views[o.locate := v])
  {
    hide ViewOk, IndexOk;
    var l, was := o.locate, views[o.locate];
    assert OwnOrders(mem, was, l);
    assert OwnOrders(now, v, l);
    forall x | x in mem && mem[x].locate != l ensures x in now && now[x] == mem[x] {
      assert x !in v.orders;
    }
    OtherBooks(mem, now, views, l, v);
    AddIndexed(mem, idx, views, p, o, now, v);
  }

  lemma AddIndexed(mem: Memory, idx: Index, views: seq<BookView>, p: nat, o: BookOrder, now: Memory, v: BookView)
    requires IndexOk(mem, idx, views) && o.locate < |views|
    requires p !in mem && o.ref !in idx
    requires v.orders == views[o.locate].orders + [p]
    requires LinksOnly(mem[p := o], now, v.orders)
    ensures IndexOk(now, idx[o.ref := p], views[o.locate := v])
  {
    var idx', t := idx[o.ref := p], views[o.locate := v];
    forall r | r in idx'
      ensures idx'[r] in now && now[idx'[r]].ref == r
      ensures now[idx'[r]].locate < |t| && idx'[r] in t[now[idx'[r]].locate].orders
    {
      if r == o.ref {
        assert v.orders[|v.orders| - 1] == p;
      } else {
        var x := idx[r];
        assert now[x].(prev := NULL, next := NULL) == mem[x].(prev := NULL, next := NULL);
      }
    }
    forall x | x in now ensures now[x].ref in idx' && idx'[now[x].ref] == x {
      assert now[x].(prev := NULL, next := NULL) == mem[p := o][x].(prev := NULL, next := NULL);
    }
  }

  /** Shares taken off the order in slot `p`. */
  lemma ReduceConsistent(mem: Memory, idx: Index, views: seq<BookView>, p: nat, shares: u32, v: BookView)
    requires Consistent(mem, idx, views) && p in mem && shares <= mem[p].shares
    requires mem[p].locate < |views| && v.orders == views[mem[p].locate].orders
    requires ViewOk(mem[p := mem[p].(shares := mem[p].shares - shares)], v)
    ensures Consistent(mem[p := mem[p].(shares := mem[p].shares - shares)], idx, views[mem[p].locate := v])
  {
    hide ViewOk;
    var l, now := mem[p].locate, mem[p := mem[p].(shares := mem[p].shares - shares)];
    assert OwnOrders(mem, views[l], l);
    OtherBooks(mem, now, views, l, v);
  }

  /** The order in slot `p` unlinked from its book, dropped from the index and released. */
  lemma RemoveConsistent(mem: Memory, idx: Index, views: seq<BookView>, p: nat, now: Memory, v: BookView)
    requires Consistent(mem, idx, views) && p in mem && mem[p].locate < |views|
    requires v.orders == Without(views[mem[p].locate].orders, p)
    requires LinksOnly(mem, now, views[mem[p].locate].orders) && ViewOk(now, v)
    ensures Consistent(now - {p}, idx - {mem[p].ref}, views[mem[p].locate := v])
  {
    hide ViewOk, Without;
    var o, l, end := mem[p], mem[p].locate, now - {p};
    var was, idx', t := views[l], idx - {o.ref}, views[l := v];
    assert ViewOk(mem, was) && OwnOrders(mem, was, l);
    DistinctOf(mem, was);
    WithoutAll(was.orders, p);
    forall k | 0 <= k < |v.orders|
      ensures v.orders[k] in end && end[v.orders[k]] == now[v.orders[k]] && end[v.orders[k]].locate == l
    {
      var x := v.orders[k];
      assert x in mem && now[x].(prev := NULL, next := NULL) == mem[x].(prev := NULL, next := NULL);
    }
    ViewFrame(now, end, v);
    forall x | x in mem && mem[x].locate != l ensures x in end && end[x] == mem[x] {
      assert x !in was.orders;
    }
    OtherBooks(mem, end, views, l, v);
    forall r | r in idx'
      ensures idx'[r] in end && end[idx'[r]].ref == r
      ensures end[idx'[r]].locate < |t| && idx'[r] in t[end[idx'[r]].locate].orders
    {
      var x := idx[r];
      assert now[x].(prev := NULL, next := NULL) == mem[x].(prev := NULL, next := NULL);
      if mem[x].locate == l {
        WithoutIn(was.orders, p, x);
      }
    }
    forall x | x in end ensures end[x].ref in idx' && idx'[end[x].ref] == x {
      assert now[x].(prev := NULL, next := NULL) == mem[x].(prev := NULL, next := NULL);
    }
  }

  lemma DistinctOf(mem: Memory, v: BookView)
    requires ViewOk(mem, v)
    ensures Distinct(v.orders) && AllIn(mem, v.orders)
  {
  }

  /** A live slot is linked in the book of its own instrument. */
  lemma SlotIsLinked(mem: Memory, idx: Index, views: seq<BookView>, p: nat)
    requires Consistent(mem, idx, views) && p in mem
    ensures mem[p].locate < |views| && p in views[mem[p].locate].orders
  {
    assert idx[mem[p].ref] == p;
  }
}
