/** Whole runs of the builder: any sequence of messages leaves exactly what the machine on flat lists leaves. */
module BookReplay {
  import opened BigEndian
  import opened BookLevels
  import opened BookWorld
  import opened BookReference
  import opened BookMachine
  import opened BookTotals
  import opened BookRuns
  import opened ItchBooks

  lemma {:induction false} SameSize(lists: Lists, views: seq<BookView>)
    requires |lists| == |views| && forall l | 0 <= l < |lists| :: |lists[l]| == |views[l].orders|
    ensures Size(lists) == TotalOrders(views)
  {
    if lists != [] {
      SameSize(lists[..|lists| - 1], views[..|views| - 1]);
    }
  }

  function AllCounts(views: seq<BookView>): nat {
    if views == [] then 0
    else
      var last := views[|views| - 1];
      AllCounts(views[..|views| - 1]) + SumCounts(last.bids) + SumCounts(last.asks)
  }

  lemma {:induction false} AllCountsAddUp(mem: Memory, views: seq<BookView>)
    requires forall l | 0 <= l < |views| :: ViewOk(mem, views[l])
    ensures AllCounts(views) == TotalOrders(views)
  {
    hide ViewOk, SumCounts;
    if views != [] {
      AllCountsAddUp(mem, views[..|views| - 1]);
      LevelCountsAddUp(mem, views[|views| - 1]);
    }
  }

  /** Index size, `liveOrders`, the entries of the lists and the order counts of all levels are one number. */
  lemma LiveOrdersCounted(b: ItchBookBuilder)
    requires b.Valid()
    ensures |b.index.contents| == b.stats.liveOrders == Size(b.Now().lists) == AllCounts(b.Views())
    ensures Unique(b.Now().lists)
  {
    hide IndexOk, ListsOf, TotalOrders, Size, AllCounts, ViewOk, Unique, ItchBookBuilder.Linked, ItchBookBuilder.Orders;
    b.LinkedMeans();
    var views := b.Views();
    SameSize(ListsOf(b.pool.mem, views), views);
    AllCountsAddUp(b.pool.mem, views);
    WorldIsUnique(b.pool.mem, b.index.contents, views);
  }

  method Dispatch(b: ItchBookBuilder, m: Message)
    requires b.Valid() && |b.index.contents| < MAX_ORDERS
    modifies b, b.pool, b.index, b.index.slots, b.books
    ensures b.Valid() && (b.index.slots == old(b.index.slots) || fresh(b.index.slots))
    ensures b.Now() == Handle(old(b.Now()), m)
  {
    hide ItchBookBuilder.Valid, ItchBookBuilder.Now, Handle;
    match m
    case NewOrder(locate, ts, ref, side, shares, price) => b.OnAdd(locate, ts, ref, side, shares, price);
    case Execution(ts, ref, shares) => b.OnExecuted(ts, ref, shares);
    case PricedExecution(ts, ref, shares, printable, price) => b.OnExecutedWithPrice(ts, ref, shares, printable, price);
    case Cancel(ts, ref, shares) => b.OnCancel(ts, ref, shares);
    case Deletion(ts, ref) => b.OnDelete(ts, ref);
    case Replacement(ts, oldRef, newRef, shares, price) => b.OnReplace(ts, oldRef, newRef, shares, price);
    case Trade(locate, price) => b.OnTrade(locate, price);
    case SystemEvent(code) => b.OnSystemEvent(code);
    case TradingAction(locate, ts, state) => b.OnTradingAction(locate, ts, state);
  }

  /** A new builder after any run of messages: its whole state is the machine's, so all the machine's laws hold. */
  method Replay(ms: seq<Message>, expectedLiveOrders: nat) returns (b: ItchBookBuilder)
    requires expectedLiveOrders <= MAX_ORDERS && |ms| <= MAX_ORDERS
    ensures fresh(b) && b.Valid() && b.Now() == RunAll(Empty(), ms)
    ensures Informed(b.Now()) && |b.calls| <= |ms| && Unique(b.Now().lists)
    ensures b.stats.liveOrders == Size(b.Now().lists) == AllCounts(b.Views())
    ensures RunIsExact(ms, b.Now())
    ensures b.stats.unknownRefs ==
      |set i | 0 <= i < |ms| && Names(ms[i]) && !IsLive(RunAll(Empty(), ms[..i]).lists, Named(ms[i]))|
  {
    hide ItchBookBuilder.Valid, ItchBookBuilder.Now, Handle, Informed, LiveCounted, Unique, Size, AllCounts, Empty,
      IsLive, RunIsExact;
    b := NewBuilder(expectedLiveOrders);
    EmptyCounts();
    for i := 0 to |ms|
      invariant b.Valid() && b.Now() == RunAll(Empty(), ms[..i])
      invariant fresh(b) && fresh(b.pool) && fresh(b.index) && fresh(b.index.slots)
      invariant forall l | 0 <= l < |b.books| :: fresh(b.books[l])
    {
      RunTotals(Empty(), ms[..i]);
      LiveOrdersCounted(b);
      EmptyIsSmall();
      assert ms[..i + 1][..i] == ms[..i];
      Dispatch(b, ms[i]);
    }
    assert ms[..|ms|] == ms;
    RunTotals(Empty(), ms);
    LiveOrdersCounted(b);
    NoCalls(b);
    RunsAreExact(ms);
    UnknownReferences(ms);
  }

  lemma NoCalls(b: ItchBookBuilder)
    requires b.Valid()
    ensures b.Now().calls == b.calls && b.Now().stats == b.stats && Empty().calls == []
  {
    hide ItchBookBuilder.Valid;
  }
}
