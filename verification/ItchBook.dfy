/** ItchBookBuilder: order events applied to one book per instrument, through the index and the pool. */
module ItchBooks {
  import opened Basics
  import opened BigEndian
  import opened ObjectPools
  import opened OrderIndexes
  import opened BookLevels
  import opened BookSteps
  import L3 = L3OrderBooks
  import opened BookWorld
  import opened BookReference
  import opened BookMachine

  const MAX_ORDERS: nat := 0x4000_0000_0000_0000

  ghost function View(b: L3.L3OrderBook): BookView
    reads b
  {
    BookView(b.orders, b.bids, b.asks)
  }

  method NewBooks() returns (made: seq<L3.L3OrderBook>)
    ensures |made| == MAX_LOCATES && forall l | 0 <= l < |made| :: fresh(made[l])
    ensures forall l | 0 <= l < |made| :: View(made[l]) == BookView([], [], [])
    ensures forall l, m | 0 <= l < m < |made| :: made[l] != made[m]
  {
    made := [];
    for n := 0 to MAX_LOCATES
      invariant |made| == n
      invariant forall l | 0 <= l < n :: View(made[l]) == BookView([], [], []) && fresh(made[l])
      invariant forall l, m | 0 <= l < m < n :: made[l] != made[m]
    {
      var b := new L3.L3OrderBook();
      made := made + [b];
    }
  }

  class ItchBookBuilder {
    const books: seq<L3.L3OrderBook>
    const pool: ObjectPool<BookOrder>
    const index: OrderIndex<nat>
    var tradingState: seq<char>
    var lastPrice: seq<u32>
    var crossedByLocate: seq<nat>
    var lastTradingAction: seq<nat>
    var crossedWhileTrading: seq<CrossedEvent>
    var marketOpen: bool
    var stats: Stats
    var calls: seq<TopOfBook> // what the listener was told, call by call

    constructor (expectedLiveOrders: nat)
      requires expectedLiveOrders <= MAX_ORDERS
      ensures Linked() && Orders() == ForEach([]) && index.contents == map[] && stats == NO_STATS
      ensures tradingState == ForEach('T') && lastPrice == ForEach(0)
      ensures crossedByLocate == ForEach(0) && lastTradingAction == ForEach(0)
      ensures calls == [] && crossedWhileTrading == [] && !marketOpen
      ensures fresh(pool) && fresh(index) && fresh(index.slots) && forall l | 0 <= l < |books| :: fresh(books[l])
    {
      hide Consistent, ListsOf, ObjectPool.Valid, OrderIndex.Valid, TotalOrders, AllHere;
      var made := NewBooks();
      books := made;
      pool := new ObjectPool<BookOrder>(65536);
      index := new OrderIndex<nat>(expectedLiveOrders);
      tradingState, lastPrice, crossedByLocate, lastTradingAction := ForEach('T'), ForEach(0), ForEach(0), ForEach(0);
      crossedWhileTrading, marketOpen, stats, calls := [], false, NO_STATS, [];
      new;
      BeginsEmpty();
    }

    lemma BeginsEmpty()
      requires Apart() && pool.Valid() && index.Valid() && pool.mem == map[] && index.contents == map[]
      requires forall l | 0 <= l < |books| :: View(books[l]) == BookView([], [], [])
      ensures Linked() && Orders() == ForEach([])
    {
      hide Consistent, ListsOf, ObjectPool.Valid, OrderIndex.Valid, TotalOrders, AllHere, Linked, Orders, Views, Apart;
      EmptyWorld(Views());
      LinkedIf(Views());
    }

    ghost function Views(): (views: seq<BookView>)
      reads books
      ensures |views| == |books| && forall l | 0 <= l < |books| :: views[l] == View(books[l])
    {
      seq(|books|, l requires 0 <= l < |books| reads books => View(books[l]))
    }

    /** One book object for each instrument. */
    ghost predicate Apart()
      ensures Apart() ==> |books| == MAX_LOCATES
    {
      |books| == MAX_LOCATES && forall l, m | 0 <= l < m < |books| :: books[l] != books[m]
    }

    /** Books, index and pool agree. */
    ghost predicate Linked()
      reads books, pool, index, index.slots
    {
      && Apart()
      && pool.Valid() && index.Valid()
      && Consistent(pool.mem, index.contents, Views())
      && |index.contents| == TotalOrders(Views())
    }

    /** The per-instrument tables and the histogram have their fixed sizes. */
    predicate Tables()
      reads `tradingState, `lastPrice, `crossedByLocate, `lastTradingAction, `stats
    {
      && |tradingState| == |lastPrice| == |crossedByLocate| == |lastTradingAction| == MAX_LOCATES
      && |stats.depthHistogram| == 6
    }

    ghost predicate Valid()
      reads this, books, pool, index, index.slots
    {
      Linked() && Tables() && stats.liveOrders == |index.contents|
    }

    /** The flat lists the books stand for. */
    ghost function Orders(): (lists: Lists)
      requires Linked()
      reads books, pool, index, index.slots
      ensures |lists| == MAX_LOCATES
    {
      Here(pool.mem, index.contents, Views());
      ListsOf(pool.mem, Views())
    }

    lemma LinkedMeans()
      requires Linked()
      ensures Apart() && pool.Valid() && index.Valid()
      ensures Consistent(pool.mem, index.contents, Views()) && |index.contents| == TotalOrders(Views())
      ensures AllHere(pool.mem, Views()) && Orders() == ListsOf(pool.mem, Views())
    {
      hide Consistent, ListsOf, ObjectPool.Valid, OrderIndex.Valid, TotalOrders, Apart, AllHere;
      Here(pool.mem, index.contents, Views());
    }

    lemma LinkedIf(views: seq<BookView>)
      requires Apart() && pool.Valid() && index.Valid() && Views() == views
      requires Consistent(pool.mem, index.contents, views) && |index.contents| == TotalOrders(views)
      ensures Linked() && AllHere(pool.mem, views) && Orders() == ListsOf(pool.mem, views)
    {
      hide Consistent, ListsOf, ObjectPool.Valid, OrderIndex.Valid, TotalOrders, Apart, AllHere;
      Here(pool.mem, index.contents, Views());
    }

    /** The builder as the machine on flat lists. */
    ghost function Now(): (w: World)
      requires Valid()
      reads this, books, pool, index, index.slots
      ensures Sized(w)
    {
      World(Orders(), stats, calls, marketOpen, tradingState, lastPrice, lastTradingAction, crossedByLocate,
            crossedWhileTrading)
    }

    method RecordDepth(depth: nat)
      requires |stats.depthHistogram| == 6
      modifies `stats
      ensures stats == old(stats).(depthHistogram := Landed(old(stats).depthHistogram, depth))
    {
      stats := stats.(depthHistogram := Landed(stats.depthHistogram, depth));
    }

    /** The order with this reference number, or a count of events that had none. */
    method Lookup(ref: u64) returns (r: Option<nat>)
      requires Valid()
      modifies `stats
      ensures Valid() && (IsLive(old(Now()).lists, ref) <==> r.Some?)
      ensures r.Some? ==> r.value in pool.mem && pool.mem[r.value].ref == ref
      ensures Now() == if r.Some? then old(Now()) else Unknown(old(Now()))
      ensures stats.unknownRefs == old(stats).unknownRefs + if r.Some? then 0 else 1
    {
      hide Consistent, ListsOf, ObjectPool.Valid, OrderIndex.Valid, TotalOrders, IsLive, Linked, Orders, Views, Apart,
          AllHere;
      LinkedMeans();
      IndexGives(pool.mem, index.contents, Views(), ref);
      IndexIsLive(pool.mem, index.contents, Views(), ref);
      r := index.Find(ref);
      if r == None {
        stats := stats.(unknownRefs := stats.unknownRefs + 1);
      }
    }

    /** What every operation on one book needs of the builder. */
    ghost predicate Ready(locate: nat)
      reads this, books, pool
    {
      && Apart() && locate < MAX_LOCATES
      && pool.Valid() && ViewOk(pool.mem, View(books[locate]))
      && |stats.depthHistogram| == 6
    }

    method LinkOrder(locate: u16, p: nat)
      requires Ready(locate) && p in pool.mem && p !in books[locate].orders
      modifies `stats, pool`cells, pool`mem, books[locate]
      ensures Ready(locate) && pool.freeList == old(pool.freeList)
      ensures View(books[locate]).orders == old(View(books[locate]).orders) + [p]
      ensures L3.LinksOnly(old(pool.mem), pool.mem, View(books[locate]).orders)
      ensures Views() == old(Views())[locate := View(books[locate])]
      ensures AllIn(pool.mem, books[locate].orders) && EntryOf(pool.mem[p]) == EntryOf(old(pool.mem)[p])
      ensures var d := Depth(Entries(pool.mem, books[locate].orders), pool.mem[p].side, pool.mem[p].price);
        stats == old(stats).(depthHistogram := Landed(old(stats).depthHistogram, d))
    {
      hide ObjectPool.Valid, L3.BookOk, L3.LinksOnly, L3.BetterPrices, BookMachine.Depth, Entries;
      ghost var views := Views();
      var depth := books[locate].Add(pool, p);
      SameEntry(old(pool.mem), pool.mem, books[locate].orders, p);
      DepthIs(pool.mem, View(books[locate]), pool.mem[p].side, pool.mem[p].price);
      RecordDepth(depth);
      assert Views() == views[locate := View(books[locate])];
    }

    method UnlinkOrder(locate: u16, p: nat)
      requires Ready(locate) && p in books[locate].orders
      modifies `stats, pool`cells, pool`mem, books[locate]
      ensures Ready(locate) && pool.freeList == old(pool.freeList)
      ensures View(books[locate]).orders == Without(old(View(books[locate]).orders), p)
      ensures L3.LinksOnly(old(pool.mem), pool.mem, old(View(books[locate]).orders))
      ensures Views() == old(Views())[locate := View(books[locate])]
      ensures AllIn(old(pool.mem), old(books[locate].orders)) && p in old(pool.mem)
      ensures var o := old(pool.mem)[p];
        var d := Depth(Entries(old(pool.mem), old(books[locate].orders)), o.side, o.price);
        stats == old(stats).(depthHistogram := Landed(old(stats).depthHistogram, d))
    {
      hide ObjectPool.Valid, L3.BookOk, L3.LinksOnly, L3.BetterPrices, Without, BookMachine.Depth, Entries;
      ghost var views := Views();
      LinkedIsLive(pool.mem, View(books[locate]), p);
      DepthIs(pool.mem, View(books[locate]), pool.mem[p].side, pool.mem[p].price);
      var depth := books[locate].Remove(pool, p);
      RecordDepth(depth);
      assert Views() == views[locate := View(books[locate])];
    }

    /** Drops an unlinked order's index entry and its slot. */
    method Forget(p: nat)
      requires pool.Valid() && index.Valid() && p in pool.mem && pool.mem[p].ref in index.contents
      modifies pool, index, index.slots
      ensures pool.Valid() && index.Valid() && index.slots == old(index.slots)
      ensures pool.mem == old(pool.mem) - {p} && index.contents == old(index.contents) - {old(pool.mem)[p].ref}
    {
      hide ObjectPool.Valid, OrderIndex.Valid;
      var ok := index.Erase(pool.Get(p).ref);
      pool.Release(p);
    }

    /** Drops the order's entry, its index entry and its slot, all but the count of live orders. */
    method UnlistOrder(p: nat)
      requires Valid() && p in pool.mem
      modifies `stats, pool, index, index.slots, books
      ensures Linked() && index.slots == old(index.slots) && |index.contents| + 1 == |old(index.contents)|
      ensures Listing(old(Now()), Orders(), stats.(liveOrders := stats.liveOrders - 1))
           == Removed(old(Now()), old(pool.mem)[p].ref)
      ensures stats == old(stats).(depthHistogram := stats.depthHistogram)
    {
      hide Consistent, ListsOf, ObjectPool.Valid, OrderIndex.Valid, TotalOrders, ViewOk, L3.LinksOnly, Without,
        AllHere, Landed, Views, L3.BookOk, Removed, BookMachine.Depth, Linked, Orders, Apart, Apply;
      ghost var mem, idx, views := pool.mem, index.contents, Views();
      LinkedMeans();
      SlotIsLinked(mem, idx, views, p);
      var l := pool.Get(p).locate;
      BookIsOk(mem, idx, views, l);
      RemovedIs(mem, idx, views, p, Now());
      UnlinkOrder(l, p);
      ghost var now, v := pool.mem, View(books[l]);
      RemoveWorld(mem, idx, views, p, now, v);
      SameRef(mem, now, views[l].orders, p);
      IndexHas(mem, idx, views, p);
      Forget(p);
      LinkedIf(views[l := v]);
    }

    method RemoveOrder(p: nat)
      requires Valid() && p in pool.mem
      modifies `stats, pool, index, index.slots, books
      ensures Valid() && (index.slots == old(index.slots) || fresh(index.slots))
      ensures Now() == Removed(old(Now()), old(pool.mem)[p].ref)
      ensures |index.contents| < |old(index.contents)|
    {
      hide Linked, Orders, Removed;
      UnlistOrder(p);
      stats := stats.(liveOrders := stats.liveOrders - 1);
    }

    /** A new order at the back of its queue, unless its reference is taken; then the books stay as they are. */
    method AddOrder(locate: u16, ts: nat, ref: u64, side: BookSide, shares: u32, price: u32)
      requires Valid() && |index.contents| < MAX_ORDERS
      modifies `stats, `crossedByLocate, `crossedWhileTrading, pool, index, index.slots, books
      ensures Valid() && (index.slots == old(index.slots) || fresh(index.slots))
      ensures Now() == Added(old(Now()), locate, ts, Entry(ref, side, price, shares))
    {
      hide Consistent, ListsOf, ObjectPool.Valid, OrderIndex.Valid, TotalOrders, Append, Refused,
        Halfway, Valid, AllHere, Views, AddedStats, CrossNoted, BookMachine.Depth;
      ghost var mem, idx := pool.mem, index.contents;
      var p, ok := Reserve(locate, ref, side, shares, price);
      if ok {
        ListOrder(locate, p, mem, idx);
        NoteCrossed(locate, ts);
      }
    }

    /** A pool slot holding the new order, indexed; or neither, if the reference cannot be used. */
    method Reserve(locate: u16, ref: u64, side: BookSide, shares: u32, price: u32) returns (p: nat, ok: bool)
      requires Valid() && |index.contents| < MAX_ORDERS
      modifies `stats, pool, index, index.slots
      ensures index.slots == old(index.slots) || fresh(index.slots)
      ensures |books| == MAX_LOCATES && AllHere(old(pool.mem), Views())
          && ListsOf(old(pool.mem), Views()) == old(Orders())
      ensures ok <==> !Refused(old(Now()).lists, ref)
      ensures ok ==> Halfway(locate, p, old(pool.mem), old(index.contents)) && stats == old(stats)
      ensures ok ==> EntryOf(pool.mem[p]) == Entry(ref, side, price, shares)
      ensures !ok ==> Valid() && Now() == Duplicate(old(Now()))
    {
      hide Consistent, ListsOf, ObjectPool.Valid, OrderIndex.Valid, TotalOrders, IsLive, Linked, Orders, Views, Apart,
          AllHere;
      ghost var mem, idx, views := pool.mem, index.contents, Views();
      LinkedMeans();
      IndexIsLive(mem, idx, views, ref);
      p := pool.Acquire(BookOrder(ref, price, shares, locate, side, NULL, NULL));
      assert pool.mem[p].ref == ref;
      ok := index.TryInsert(ref, p);
      if !ok {
        Refuse(p, mem, views);
      }
    }

    /** Gives back the slot of an order that the index would not take. */
    method Refuse(p: nat, ghost mem: Memory, ghost views: seq<BookView>)
      requires Apart() && Tables() && pool.Valid() && index.Valid() && Views() == views
          && stats.liveOrders == |index.contents|
      requires p in pool.mem && p !in mem && pool.mem == mem[p := pool.mem[p]]
      requires Consistent(mem, index.contents, views) && |index.contents| == TotalOrders(views)
      modifies `stats, pool`cells, pool`freeHead, pool`freeList, pool`mem
      ensures Valid() && AllHere(mem, views) && pool.mem == mem
      ensures Orders() == ListsOf(mem, views) && stats == old(stats).(duplicateRefs := old(stats).duplicateRefs + 1)
    {
      hide Consistent, ListsOf, ObjectPool.Valid, OrderIndex.Valid, TotalOrders, Linked, Orders, Views, Apart, AllHere;
      pool.Release(p);
      stats := stats.(duplicateRefs := stats.duplicateRefs + 1);
      assert pool.mem == mem;
      LinkedIf(views);
    }

    /** The index and the pool have the new order in slot `p`; the books do not yet. */
    ghost predicate Halfway(locate: nat, p: nat, mem: Memory, idx: Index)
      reads this, books, pool, index, index.slots
    {
      && Apart() && Tables()
      && pool.Valid() && index.Valid()
      && Consistent(mem, idx, Views())
      && stats.liveOrders == |idx| == TotalOrders(Views())
      && p in pool.mem && p !in mem && pool.mem == mem[p := pool.mem[p]] && pool.mem[p].locate == locate
      && pool.mem[p].ref != NO_REF && pool.mem[p].ref !in idx && index.contents == idx[pool.mem[p].ref := p]
    }

    /** Links the new order into its book, all but the count of live orders. */
    method EnlistOrder(locate: u16, p: nat, ghost mem: Memory, ghost idx: Index)
      requires Halfway(locate, p, mem, idx) && AllHere(mem, Views())
      modifies `stats, pool`cells, pool`mem, books[locate]
      ensures Linked()
      ensures Orders() == Append(ListsOf(mem, old(Views())), locate, EntryOf(old(pool.mem)[p]))
      ensures var e := EntryOf(old(pool.mem)[p]);
        var d := Depth(Orders()[locate], e.side, e.price);
        stats == old(stats).(depthHistogram := Landed(old(stats).depthHistogram, d))
    {
      hide Consistent, ListsOf, ObjectPool.Valid, OrderIndex.Valid, TotalOrders, L3.BookOk, L3.LinksOnly, Append,
        BookMachine.Depth, Landed, Entries, Linked, Orders, Apart, AllHere, ViewOk;
      ghost var views, o := Views(), pool.mem[p];
      AcquiredElsewhere(mem, idx, views, locate, p, o);
      LinkOrder(locate, p);
      AddWorld(mem, idx, views, p, o, pool.mem, View(books[locate]));
      LinkedIf(views[locate := View(books[locate])]);
    }

    method ListOrder(locate: u16, p: nat, ghost mem: Memory, ghost idx: Index)
      requires Halfway(locate, p, mem, idx) && AllHere(mem, Views())
      modifies `stats, pool`cells, pool`mem, books[locate]
      ensures Valid()
      ensures Orders() == Append(ListsOf(mem, old(Views())), locate, EntryOf(old(pool.mem)[p]))
      ensures var e := EntryOf(old(pool.mem)[p]);
        stats == AddedStats(old(stats), Depth(Orders()[locate], e.side, e.price))
    {
      hide Consistent, ListsOf, ObjectPool.Valid, OrderIndex.Valid, TotalOrders, Append, BookMachine.Depth, Landed,
        Linked, Orders, Apart, AllHere, Views;
      EnlistOrder(locate, p, mem, idx);
      stats := stats.(liveOrders := stats.liveOrders + 1);
      if stats.liveOrders > stats.peakLiveOrders {
        stats := stats.(peakLiveOrders := stats.liveOrders);
      }
    }

    method IsCrossed(locate: u16) returns (crossed: bool)
      requires Valid()
      ensures Valid() && (crossed <==> CrossedList(Now().lists[locate]))
    {
      hide Consistent, ListsOf, ObjectPool.Valid, OrderIndex.Valid, TotalOrders, CrossedList, L3.L3OrderBook.Crossed,
        Linked, Orders, Apart, AllHere;
      LinkedMeans();
      CrossedIs(pool.mem, index.contents, Views(), books[locate], locate);
      crossed := books[locate].Crossed();
    }

    /** Counts a book that the new order left crossed, and keeps the first few worth a look. */
    method NoteCrossed(locate: u16, ts: nat)
      requires Valid()
      modifies `stats, `crossedByLocate, `crossedWhileTrading
      ensures Valid() && Now() == CrossNoted(old(Now()), locate, ts)
    {
      hide Linked, Orders, CrossedList, CrossKept;
      var crossed := IsCrossed(locate);
      if marketOpen && crossed {
        stats := stats.(crossedDuringMarket := stats.crossedDuringMarket + 1);
        crossedByLocate := crossedByLocate[locate := crossedByLocate[locate] + 1];
        KeepCrossed(locate, ts);
      }
    }

    method KeepCrossed(locate: u16, ts: nat)
      requires Valid()
      modifies `stats, `crossedWhileTrading
      ensures Valid() && Now() == CrossKept(old(Now()), locate, ts)
    {
      hide Linked, Orders;
      if tradingState[locate] == 'T' {
        stats := stats.(crossedWhileTrading := stats.crossedWhileTrading + 1);
        if |crossedWhileTrading| < KEPT_EVENTS {
          var event := CrossedEvent(locate, ts, lastTradingAction[locate]);
          crossedWhileTrading := crossedWhileTrading + [event];
        }
      }
    }

    /** Fewer shares for an order, or no order if none are left. */
    method TakeShares(p: nat, shares: u32)
      requires Valid() && p in pool.mem
      modifies `stats, pool, index, index.slots, books
      ensures Valid() && (index.slots == old(index.slots) || fresh(index.slots))
      ensures Now() == Taken(old(Now()), old(pool.mem)[p].ref, shares)
    {
      hide Valid, Now, Removed, Reduce, IsLive, Place, Landed, BookMachine.Depth;
      var o := OrderAt(p);
      var taken := shares;
      if shares > o.shares {
        CountOver();
        taken := o.shares;
      }
      if taken == o.shares {
        RemoveOrder(p);
      } else {
        ReduceOrder(p, taken);
      }
    }

    method CountOver()
      requires Valid()
      modifies `stats
      ensures Valid() && Now() == Over(old(Now()))
    {
      hide Linked, Orders;
      stats := stats.(overExecutions := stats.overExecutions + 1);
    }

    method ReduceLinked(locate: u16, p: nat, shares: u32)
      requires Ready(locate) && p in books[locate].orders && p in pool.mem && shares < pool.mem[p].shares
      modifies `stats, pool`cells, pool`mem, books[locate]
      ensures Ready(locate) && View(books[locate]).orders == old(View(books[locate]).orders)
      ensures var o := old(pool.mem)[p]; pool.mem == old(pool.mem)[p := o.(shares := o.shares - shares)]
      ensures Views() == old(Views())[locate := View(books[locate])]
      ensures AllIn(pool.mem, books[locate].orders)
      ensures var d := Depth(Entries(pool.mem, books[locate].orders), pool.mem[p].side, pool.mem[p].price);
        stats == old(stats).(depthHistogram := Landed(old(stats).depthHistogram, d))
    {
      hide ObjectPool.Valid, L3.BookOk, L3.BetterPrices, BookMachine.Depth, Entries;
      ghost var views := Views();
      var depth := books[locate].Reduce(pool, p, shares);
      DepthIs(pool.mem, View(books[locate]), pool.mem[p].side, pool.mem[p].price);
      RecordDepth(depth);
      assert Views() == views[locate := View(books[locate])];
    }

    method ReduceOrder(p: nat, shares: u32)
      requires Valid() && p in pool.mem && shares < pool.mem[p].shares
      modifies `stats, pool, books
      ensures Valid() && Now() == Taken(old(Now()), old(pool.mem)[p].ref, shares)
    {
      hide Consistent, ListsOf, ObjectPool.Valid, OrderIndex.Valid, TotalOrders, L3.BookOk, BookMachine.Depth, Landed,
        Linked, Orders, AllHere, Views, ViewOk, Taken, Apart, Entries, Apply;
      ghost var mem, idx, views := pool.mem, index.contents, Views();
      LinkedMeans();
      SlotIsLinked(mem, idx, views, p);
      var l := pool.Get(p).locate;
      BookIsOk(mem, idx, views, l);
      TakenIs(mem, idx, views, p, shares, Now());
      ReduceLinked(l, p, shares);
      ReduceWorld(mem, idx, views, p, shares, View(books[l]));
      LinkedIf(views[l := View(books[l])]);
    }

    /** A live order, and where its entry stands. */
    method OrderAt(p: nat) returns (o: BookOrder)
      requires Valid() && p in pool.mem
      ensures Valid() && o == pool.mem[p] && Stands(Now().lists, o.ref, o.locate, EntryOf(o))
    {
      hide Consistent, ListsOf, OrderIndex.Valid, TotalOrders, IsLive, Place, AllHere, EntryOf, Distinct, Linked,
          Orders,
        Apart;
      LinkedMeans();
      ghost var k := PlaceOf(pool.mem, index.contents, Views(), p);
      o := pool.Get(p);
    }

    method BestOf(locate: u16) returns (top: Top)
      requires Valid()
      ensures Valid() && top == TopOf(Now().lists[locate])
    {
      hide Consistent, ListsOf, ObjectPool.Valid, OrderIndex.Valid, TotalOrders, TopOf, ViewOk;
      Here(pool.mem, index.contents, Views());
      BookIsOk(pool.mem, index.contents, Views(), locate);
      TopIs(pool.mem, books[locate]);
      var (bid, ask) := (books[locate].BestBid(), books[locate].BestAsk());
      top := Top(if bid.Some? then bid.value.price else 0, if bid.Some? then bid.value.shares else 0,
                 if ask.Some? then ask.value.price else 0, if ask.Some? then ask.value.shares else 0);
    }

    /** A call to the listener, unless the top still is `before`. */
    method Tell(locate: u16, ts: nat, before: Top)
      requires Valid()
      modifies `calls
      ensures Valid() && Now() == Telling(old(Now()), locate, ts, before)
    {
      hide Linked, Orders, TopOf;
      var after := BestOf(locate);
      if after != before {
        calls := calls + [TopOfBook(locate, ts, after)];
      }
    }

    // ---- The event handlers ----

    method Count(m: Message)
      requires Valid()
      modifies `stats
      ensures Valid() && Now() == old(Now()).(stats := Counted(old(Now()).stats, m))
    {
      hide Linked, Orders;
      stats := Counted(stats, m);
    }

    /** The change of an execution or cancel, with what the listener hears of it. */
    method TakeAndTell(p: nat, ts: nat, shares: u32)
      requires Valid() && p in pool.mem
      modifies this, pool, index, index.slots, books
      ensures Valid() && (index.slots == old(index.slots) || fresh(index.slots))
      ensures var o := old(pool.mem)[p];
        Now() == Notified(Taken(old(Now()), o.ref, shares), old(Now()).lists, o.locate, ts)
    {
      hide Valid, Now, Taken, TopOf, Told;
      var o := OrderAt(p);
      var before := BestOf(o.locate);
      TakeShares(p, shares);
      Tell(o.locate, ts, before);
    }

    method SetLastPrice(locate: u16, price: u32)
      requires Valid()
      modifies `lastPrice
      ensures Valid() && Now() == old(Now()).(lastPrice := old(Now()).lastPrice[locate := price])
    {
      hide Linked, Orders;
      lastPrice := lastPrice[locate := price];
    }

    method OnAdd(locate: u16, ts: nat, ref: u64, side: char, shares: u32, price: u32)
      requires Valid() && |index.contents| < MAX_ORDERS
      modifies this, pool, index, index.slots, books
      ensures Valid() && (index.slots == old(index.slots) || fresh(index.slots))
      ensures Now() == Handle(old(Now()), NewOrder(locate, ts, ref, side, shares, price))
    {
      hide Valid, Now, Added, TopOf, Told;
      Count(NewOrder(locate, ts, ref, side, shares, price));
      var before := BestOf(locate);
      AddOrder(locate, ts, ref, if side == 'B' then Bid else Ask, shares, price);
      Tell(locate, ts, before);
    }

    method OnExecuted(ts: nat, ref: u64, shares: u32)
      requires Valid()
      modifies this, pool, index, index.slots, books
      ensures Valid() && (index.slots == old(index.slots) || fresh(index.slots))
      ensures Now() == Handle(old(Now()), Execution(ts, ref, shares))
    {
      hide Valid, Now, Taken, Telling, IsLive, Place;
      Count(Execution(ts, ref, shares));
      var r := Lookup(ref);
      if r.Some? {
        var o := OrderAt(r.value);
        SetLastPrice(o.locate, o.price);
        TakeAndTell(r.value, ts, shares);
      }
    }

    method OnExecutedWithPrice(ts: nat, ref: u64, shares: u32, printable: char, price: u32)
      requires Valid()
      modifies this, pool, index, index.slots, books
      ensures Valid() && (index.slots == old(index.slots) || fresh(index.slots))
      ensures Now() == Handle(old(Now()), PricedExecution(ts, ref, shares, printable, price))
    {
      hide Valid, Now, Taken, Telling, IsLive, Place;
      Count(PricedExecution(ts, ref, shares, printable, price));
      var r := Lookup(ref);
      if r.Some? {
        var o := OrderAt(r.value);
        if printable == 'Y' {
          SetLastPrice(o.locate, price);
        }
        TakeAndTell(r.value, ts, shares);
      }
    }

    method OnCancel(ts: nat, ref: u64, shares: u32)
      requires Valid()
      modifies this, pool, index, index.slots, books
      ensures Valid() && (index.slots == old(index.slots) || fresh(index.slots))
      ensures Now() == Handle(old(Now()), Cancel(ts, ref, shares))
    {
      hide Valid, Now, Taken, Telling, IsLive, Place;
      Count(Cancel(ts, ref, shares));
      var r := Lookup(ref);
      if r.Some? {
        var o := OrderAt(r.value);
        TakeAndTell(r.value, ts, shares);
      }
    }

    method OnDelete(ts: nat, ref: u64)
      requires Valid()
      modifies this, pool, index, index.slots, books
      ensures Valid() && (index.slots == old(index.slots) || fresh(index.slots))
      ensures Now() == Handle(old(Now()), Deletion(ts, ref))
    {
      hide Valid, Now, Removed, TopOf, Told, IsLive, Place;
      Count(Deletion(ts, ref));
      var r := Lookup(ref);
      if r.Some? {
        var o := OrderAt(r.value);
        var before := BestOf(o.locate);
        RemoveOrder(r.value);
        Tell(o.locate, ts, before);
      }
    }

    /** A new order in place of the old one, on the same side of the same book; the listener hears of the result. */
    method OnReplace(ts: nat, oldRef: u64, newRef: u64, shares: u32, price: u32)
      requires Valid() && |index.contents| < MAX_ORDERS
      modifies this, pool, index, index.slots, books
      ensures Valid() && (index.slots == old(index.slots) || fresh(index.slots))
      ensures Now() == Handle(old(Now()), Replacement(ts, oldRef, newRef, shares, price))
    {
      hide Valid, Now, Removed, Added, TopOf, Told, IsLive, Place;
      Count(Replacement(ts, oldRef, newRef, shares, price));
      var r := Lookup(oldRef);
      if r.Some? {
        var o := OrderAt(r.value);
        var before := BestOf(o.locate);
        RemoveOrder(r.value);
        AddOrder(o.locate, ts, newRef, o.side, shares, price);
        Tell(o.locate, ts, before);
      }
    }

    method OnTrade(locate: u16, price: u32)
      requires Valid()
      modifies this
      ensures Valid() && Now() == Handle(old(Now()), Trade(locate, price))
    {
      hide Valid, Now;
      Count(Trade(locate, price));
      SetLastPrice(locate, price);
    }

    method OnSystemEvent(code: char)
      requires Valid()
      modifies this
      ensures Valid() && Now() == Handle(old(Now()), SystemEvent(code))
    {
      hide Linked, Orders;
      if code == 'Q' {
        marketOpen := true;
      }
      if code == 'M' {
        marketOpen := false;
      }
    }

    method OnTradingAction(locate: u16, ts: nat, state: char)
      requires Valid()
      modifies this
      ensures Valid() && Now() == Handle(old(Now()), TradingAction(locate, ts, state))
    {
      hide Linked, Orders;
      stats := Counted(stats, TradingAction(locate, ts, state));
      tradingState := tradingState[locate := state];
      lastTradingAction := lastTradingAction[locate := ts];
    }
  }

  /** A new builder is in the machine's empty state. */
  method NewBuilder(expectedLiveOrders: nat) returns (b: ItchBookBuilder)
    requires expectedLiveOrders <= MAX_ORDERS
    ensures fresh(b) && b.Valid() && b.Now() == Empty()
    ensures fresh(b.pool) && fresh(b.index) && fresh(b.index.slots)
    ensures forall l | 0 <= l < |b.books| :: fresh(b.books[l])
  {
    hide ItchBookBuilder.Linked, ItchBookBuilder.Orders;
    b := new ItchBookBuilder(expectedLiveOrders);
  }

  // ---- Between the books and the flat lists ----

  lemma DepthIs(mem: Memory, v: BookView, side: BookSide, price: u32)
    requires ViewOk(mem, v)
    ensures AllIn(mem, v.orders)
    ensures |L3.BetterPrices(mem, v.orders, side, price)| == Depth(Entries(mem, v.orders), side, price)
  {
    hide SideOk;
    assert L3.BetterPrices(mem, v.orders, side, price) == BetterIn(Entries(mem, v.orders), side, price);
  }

  lemma LinkedIsLive(mem: Memory, v: BookView, p: nat)
    requires ViewOk(mem, v) && p in v.orders
    ensures p in mem
  {
    hide SideOk;
  }

  lemma SameEntry(mem: Memory, now: Memory, orders: seq<nat>, p: nat)
    requires L3.LinksOnly(mem, now, orders) && p in mem
    ensures p in now && EntryOf(now[p]) == EntryOf(mem[p])
  {
    assert now[p].(prev := NULL, next := NULL) == mem[p].(prev := NULL, next := NULL);
  }

  /** Removing the order in slot `p` is removing its reference from the machine. */
  lemma RemovedIs(mem: Memory, idx: Index, views: seq<BookView>, p: nat, w: World)
    requires Consistent(mem, idx, views) && AllHere(mem, views) && p in mem
    requires Sized(w) && w.lists == ListsOf(mem, views)
    ensures mem[p].locate < |views| && AllIn(mem, views[mem[p].locate].orders)
    ensures var o := mem[p];
      var d := Depth(Entries(mem, views[o.locate].orders), o.side, o.price);
      Removed(w, o.ref) == w.(lists := Apply(w.lists, Delete(o.ref)), stats := RemovedStats(w.stats, d))
  {
    hide Consistent, BookMachine.Depth, RemovedStats, Place, IsLive, LiveAt;
    var k := PlaceOf(mem, idx, views, p);
  }

  /** Taking part of the order in slot `p` changes its entry and the histogram, nothing else. */
  lemma TakenIs(mem: Memory, idx: Index, views: seq<BookView>, p: nat, shares: u32, w: World)
    requires Consistent(mem, idx, views) && AllHere(mem, views) && p in mem && shares < mem[p].shares
    requires Sized(w) && w.lists == ListsOf(mem, views)
    ensures mem[p].locate < |views|
    ensures var o, lists := mem[p], Apply(w.lists, Take(mem[p].ref, shares));
      var d := Depth(lists[o.locate], o.side, o.price);
      Taken(w, o.ref, shares) ==
      w.(lists := lists, stats := w.stats.(depthHistogram := Landed(w.stats.depthHistogram, d)))
  {
    hide Consistent, BookMachine.Depth, Landed, Place, IsLive, LiveAt, Removed;
    var k := PlaceOf(mem, idx, views, p);
  }

  lemma {:induction false} SharesAre(mem: Memory, orders: seq<nat>, side: BookSide, price: u32)
    requires AllIn(mem, orders) && AllIn(mem, Queue(mem, orders, side, price))
    ensures Shares(mem, Queue(mem, orders, side, price)) == SharesAt(Entries(mem, orders), side, price)
  {
    hide Queue, Shares, SharesAt, Entries;
    if orders == [] {
      NoShares(mem, side, price);
    } else {
      var before, last := orders[..|orders| - 1], orders[|orders| - 1];
      var q := Queue(mem, before, side, price);
      assert before + [last] == orders && q + [] == q;
      QueueIn(mem, before, side, price, last);
      SharesAre(mem, before, side, price);
      QueueAppend(mem, before, last, side, price);
      SharesAppend(mem, q, last);
      EntrySharesAppend(mem, before, last, side, price);
    }
  }

  lemma NoShares(mem: Memory, side: BookSide, price: u32)
    ensures Queue(mem, [], side, price) == [] && Shares(mem, []) == 0 && SharesAt(Entries(mem, []), side, price) == 0
  {
  }

  lemma EntrySharesAppend(mem: Memory, before: seq<nat>, last: nat, side: BookSide, price: u32)
    requires AllIn(mem, before) && last in mem
    ensures AllIn(mem, before + [last])
    ensures SharesAt(Entries(mem, before + [last]), side, price) ==
            SharesAt(Entries(mem, before), side, price) +
            if mem[last].side == side && mem[last].price == price then mem[last].shares else 0
  {
    assert Entries(mem, before + [last])[..|before|] == Entries(mem, before);
  }

  /** The last level of a side is the flat list's best price, with the shares there. */
  lemma SideTopIs(mem: Memory, orders: seq<nat>, side: BookSide, best: Option<PriceLevel>)
    requires AllIn(mem, orders) && L3.IsBest(mem, orders, side, best)
    ensures SideTop(Entries(mem, orders), side) ==
            if best.Some? then (best.value.price, best.value.shares) else (0, 0)
  {
    hide SharesAt, Shares, Queue;
    var es := Entries(mem, orders);
    if best.Some? {
      var price := best.value.price;
      SharesAre(mem, orders, side, price);
      var q := Queue(mem, orders, side, price);
      QueueIn(mem, orders, side, price, q[0]);
      var k :| 0 <= k < |orders| && orders[k] == q[0];
      assert es[k].side == side && es[k].price == price;
      BestPriceIs(es, side, price);
    }
  }

  lemma TopIs(mem: Memory, b: L3.L3OrderBook)
    requires ViewOk(mem, View(b))
    ensures AllIn(mem, b.orders)
    ensures var bid, ask := b.BestBid(), b.BestAsk();
      TopOf(Entries(mem, b.orders)) ==
      Top(if bid.Some? then bid.value.price else 0, if bid.Some? then bid.value.shares else 0,
          if ask.Some? then ask.value.price else 0, if ask.Some? then ask.value.shares else 0)
  {
    hide SideOk, L3.IsBest, SideTop;
    b.QueriesAreRight(mem);
    SideTopIs(mem, b.orders, Bid, b.BestBid());
    SideTopIs(mem, b.orders, Ask, b.BestAsk());
  }

  lemma EmptyWorld(views: seq<BookView>)
    requires |views| == MAX_LOCATES && forall l | 0 <= l < |views| :: views[l] == BookView([], [], [])
    ensures Consistent(map[], map[], views) && TotalOrders(views) == 0
    ensures AllHere(map[], views) && ListsOf(map[], views) == ForEach([])
  {
    hide ViewOk, TotalOrders;
    NoOrders(views);
    EmptyView();
    assert forall l | 0 <= l < |views| :: ViewOk(map[], views[l]) && OwnOrders(map[], views[l], l);
  }

  lemma EmptyView()
    ensures ViewOk(map[], BookView([], [], []))
  {
  }

  lemma {:induction false} NoOrders(views: seq<BookView>)
    requires forall l | 0 <= l < |views| :: views[l] == BookView([], [], [])
    ensures TotalOrders(views) == 0
  {
    if views != [] {
      NoOrders(views[..|views| - 1]);
    }
  }

  /** A freshly acquired slot belongs to no book yet. */
  lemma AcquiredElsewhere(mem: Memory, idx: Index, views: seq<BookView>, l: nat, p: nat, o: BookOrder)
    requires Consistent(mem, idx, views) && l < |views| && p !in mem
    ensures ViewOk(mem[p := o], views[l]) && p !in views[l].orders
  {
    assert ViewOk(mem, views[l]);
    DistinctOf(mem, views[l]);
    ViewFrame(mem, mem[p := o], views[l]);
  }

  lemma CrossedIs(mem: Memory, idx: Index, views: seq<BookView>, b: L3.L3OrderBook, l: nat)
    requires Consistent(mem, idx, views) && AllHere(mem, views) && l < |views| && views[l] == View(b)
    ensures b.Crossed() <==> CrossedList(ListsOf(mem, views)[l])
  {
    hide SideOk, L3.Crosses, CrossedList, L3.IsBest, ListsOf, L3.L3OrderBook.Crossed;
    assert ViewOk(mem, views[l]);
    b.QueriesAreRight(mem);
    CrossesIs(mem, b.orders);
  }

  lemma CrossesIs(mem: Memory, orders: seq<nat>)
    requires AllIn(mem, orders)
    ensures L3.Crosses(mem, orders) <==> CrossedList(Entries(mem, orders))
  {
    hide Entries;
    var es := Entries(mem, orders);
    assert |es| == |orders|
      && forall k | 0 <= k < |es| :: es[k].side == mem[orders[k]].side && es[k].price == mem[orders[k]].price;
  }

  lemma BookIsOk(mem: Memory, idx: Index, views: seq<BookView>, l: nat)
    requires Consistent(mem, idx, views) && l < |views|
    ensures ViewOk(mem, views[l])
  {
  }

  lemma IndexGives(mem: Memory, idx: Index, views: seq<BookView>, ref: u64)
    requires Consistent(mem, idx, views)
    ensures ref in idx ==> idx[ref] in mem && mem[idx[ref]].ref == ref
  {
  }

  lemma SameRef(mem: Memory, now: Memory, orders: seq<nat>, p: nat)
    requires L3.LinksOnly(mem, now, orders) && p in mem
    ensures p in now && now[p].ref == mem[p].ref && now[p].locate == mem[p].locate
  {
    assert now[p].(prev := NULL, next := NULL) == mem[p].(prev := NULL, next := NULL);
  }

  lemma IndexHas(mem: Memory, idx: Index, views: seq<BookView>, p: nat)
    requires Consistent(mem, idx, views) && p in mem
    ensures mem[p].ref in idx && idx[mem[p].ref] == p && |idx - {mem[p].ref}| == |idx| - 1
  {
    RemoveCount(idx, mem[p].ref);
  }
}
