/** The order events on flat arrival-ordered lists, and how the books stand for those lists. */
module BookReference {
  import opened BigEndian
  import opened ObjectPools
  import opened BookLevels
  import opened L3OrderBooks
  import opened BookWorld
  import ProbeTable

  /** The reference the index reserves for itself; no order can have it. */
  const NO_REF: u64 := ProbeTable.EMPTY

  datatype Entry = Entry(ref: u64, side: BookSide, price: u32, shares: u32)

  /** One instrument's live orders in arrival order, for every instrument. */
  type Lists = seq<seq<Entry>>

  datatype Event =
    | Add(locate: u16, entry: Entry)
    | Take(ref: u64, shares: u32) // execution or partial cancel
    | Delete(ref: u64)
    | Replace(oldRef: u64, newRef: u64, shares: u32, price: u32)

  predicate LiveAt(lists: Lists, ref: u64, l: nat, k: nat) {
    l < |lists| && k < |lists[l]| && lists[l][k].ref == ref
  }

  ghost predicate IsLive(lists: Lists, ref: u64) {
    exists l, k :: LiveAt(lists, ref, l, k)
  }

  ghost predicate Unique(lists: Lists) {
    forall r, l, k, l', k' :: LiveAt(lists, r, l, k) && LiveAt(lists, r, l', k') ==> l == l' && k == k'
  }

  /** Where a live reference is. */
  ghost function Place(lists: Lists, ref: u64): (p: (nat, nat))
    requires IsLive(lists, ref)
    ensures LiveAt(lists, ref, p.0, p.1)
  {
    var l: nat :| exists k :: LiveAt(lists, ref, l, k);
    var k: nat :| LiveAt(lists, ref, l, k);
    (l, k)
  }

  /** The reference is live in book `l`, with this entry. */
  ghost predicate Stands(lists: Lists, ref: u64, l: nat, e: Entry) {
    IsLive(lists, ref) && Place(lists, ref).0 == l && EntryAt(lists, ref) == e
  }

  ghost function EntryAt(lists: Lists, ref: u64): Entry
    requires IsLive(lists, ref)
  {
    var p := Place(lists, ref);
    lists[p.0][p.1]
  }

  ghost function Append(lists: Lists, l: nat, e: Entry): (r: Lists)
    requires l < |lists|
    ensures |r| == |lists|
  {
    if e.ref == NO_REF || IsLive(lists, e.ref) then lists else lists[l := lists[l] + [e]]
  }

  function Drop(lists: Lists, l: nat, k: nat): (r: Lists)
    requires l < |lists| && k < |lists[l]|
    ensures |r| == |lists|
  {
    lists[l := lists[l][..k] + lists[l][k + 1..]]
  }

  function Reduce(lists: Lists, l: nat, k: nat, shares: u32): Lists
    requires l < |lists| && k < |lists[l]|
  {
    var e := lists[l][k];
    if shares >= e.shares then Drop(lists, l, k) else lists[l := lists[l][k := e.(shares := e.shares - shares)]]
  }

  /** What each event does to an order at a known place; an event for an order we do not have does nothing. */
  ghost function Apply(lists: Lists, e: Event): (r: Lists)
    requires e.Add? ==> e.locate < |lists|
    ensures |r| == |lists|
  {
    match e
    case Add(locate, entry) => Append(lists, locate, entry)
    case Take(ref, shares) =>
      if IsLive(lists, ref) then Reduce(lists, Place(lists, ref).0, Place(lists, ref).1, shares) else lists
    case Delete(ref) =>
      if IsLive(lists, ref) then Drop(lists, Place(lists, ref).0, Place(lists, ref).1) else lists
    case Replace(oldRef, newRef, shares, price) =>
      if IsLive(lists, oldRef)
      then
        var (l, k) := Place(lists, oldRef);
        Append(Drop(lists, l, k), l, Entry(newRef, lists[l][k].side, price, shares))
      else lists
  }

  // ---- The lists a consistent world stands for ----

  function EntryOf(o: BookOrder): Entry {
    Entry(o.ref, o.side, o.price, o.shares)
  }

  ghost function Entries(mem: Memory, orders: seq<nat>): (es: seq<Entry>)
    requires AllIn(mem, orders)
    ensures |es| == |orders|
    ensures forall k | 0 <= k < |es| :: es[k] == EntryOf(mem[orders[k]])
  {
    seq(|orders|, k requires 0 <= k < |orders| => EntryOf(mem[orders[k]]))
  }

  ghost predicate AllHere(mem: Memory, views: seq<BookView>) {
    forall l | 0 <= l < |views| :: AllIn(mem, views[l].orders)
  }

  ghost function ListsOf(mem: Memory, views: seq<BookView>): (lists: Lists)
    requires AllHere(mem, views)
    ensures |lists| == |views|
    ensures forall l | 0 <= l < |lists| :: lists[l] == Entries(mem, views[l].orders)
  {
    seq(|views|, l requires 0 <= l < |views| => Entries(mem, views[l].orders))
  }

  lemma Here(mem: Memory, idx: Index, views: seq<BookView>)
    requires Consistent(mem, idx, views)
    ensures AllHere(mem, views)
  {
    forall l | 0 <= l < |views| ensures AllIn(mem, views[l].orders) {
      assert ViewOk(mem, views[l]);
    }
  }

  /** The index finds exactly the live references, and where they are. */
  lemma IndexFinds(mem: Memory, idx: Index, views: seq<BookView>, ref: u64, l: nat, k: nat)
    requires Consistent(mem, idx, views) && AllHere(mem, views)
    ensures LiveAt(ListsOf(mem, views), ref, l, k) <==>
      ref in idx && l == mem[idx[ref]].locate && k < |views[l].orders| && views[l].orders[k] == idx[ref]
  {
    if l < |views| && k < |views[l].orders| {
      assert OwnOrders(mem, views[l], l);
    }
  }

  lemma IndexIsLive(mem: Memory, idx: Index, views: seq<BookView>, ref: u64)
    requires Consistent(mem, idx, views) && AllHere(mem, views)
    ensures IsLive(ListsOf(mem, views), ref) <==> ref in idx
  {
    var lists := ListsOf(mem, views);
    if ref in idx {
      var l := mem[idx[ref]].locate;
      var k :| 0 <= k < |views[l].orders| && views[l].orders[k] == idx[ref];
      assert LiveAt(lists, ref, l, k);
    }
    if l, k :| LiveAt(lists, ref, l, k) {
      IndexFinds(mem, idx, views, ref, l, k);
    }
  }

  /** No reference is live twice, anywhere. */
  lemma WorldIsUnique(mem: Memory, idx: Index, views: seq<BookView>)
    requires Consistent(mem, idx, views) && AllHere(mem, views)
    ensures Unique(ListsOf(mem, views))
  {
    hide Consistent, ListsOf;
    var lists := ListsOf(mem, views);
    forall r, l, k, l', k' | LiveAt(lists, r, l, k) && LiveAt(lists, r, l', k') ensures l == l' && k == k' {
      IndexFinds(mem, idx, views, r, l, k);
      IndexFinds(mem, idx, views, r, l', k');
      SamePlace(mem, idx, views, l, k, k');
    }
  }

  lemma SamePlace(mem: Memory, idx: Index, views: seq<BookView>, l: nat, j: nat, k: nat)
    requires Consistent(mem, idx, views) && l < |views| && j < |views[l].orders| && k < |views[l].orders|
    requires views[l].orders[j] == views[l].orders[k]
    ensures j == k
  {
    assert ViewOk(mem, views[l]);
  }

  lemma PlaceIsUnique(lists: Lists, ref: u64, l: nat, k: nat)
    requires Unique(lists) && LiveAt(lists, ref, l, k)
    ensures IsLive(lists, ref) && Place(lists, ref) == (l, k)
  {
    var p := Place(lists, ref);
    assert LiveAt(lists, ref, p.0, p.1);
  }

  /** In a consistent world, the place of an indexed order is where its book links it. */
  lemma PlaceIs(mem: Memory, idx: Index, views: seq<BookView>, ref: u64, k: nat)
    requires Consistent(mem, idx, views) && AllHere(mem, views) && ref in idx
    requires var l := mem[idx[ref]].locate; l < |views| && k < |views[l].orders| && views[l].orders[k] == idx[ref]
    ensures IsLive(ListsOf(mem, views), ref) && Place(ListsOf(mem, views), ref) == (mem[idx[ref]].locate, k)
  {
    hide BooksOk, Place, Unique, LiveAt, IsLive;
    IndexFinds(mem, idx, views, ref, mem[idx[ref]].locate, k);
    WorldIsUnique(mem, idx, views);
    PlaceIsUnique(ListsOf(mem, views), ref, mem[idx[ref]].locate, k);
  }

  // ---- What the three changes do to the lists ----

  /** Entries do not see links. */
  lemma EntriesFrame(mem: Memory, now: Memory, orders: seq<nat>)
    requires AllIn(mem, orders) && AllIn(now, orders)
    requires forall k | 0 <= k < |orders| ::
      now[orders[k]].(prev := NULL, next := NULL) == mem[orders[k]].(prev := NULL, next := NULL)
    ensures Entries(now, orders) == Entries(mem, orders)
  {
    forall k | 0 <= k < |orders| ensures Entries(now, orders)[k] == Entries(mem, orders)[k] {
      var a, b := now[orders[k]], mem[orders[k]];
      assert a.(prev := NULL, next := NULL) == b.(prev := NULL, next := NULL);
    }
  }

  /** Only book `l` changes its entries. */
  lemma ListsUpdate(mem: Memory, now: Memory, views: seq<BookView>, l: nat, v: BookView)
    requires l < |views| && BooksOk(mem, views) && BooksOk(now, views[l := v])
    requires AllHere(mem, views) && AllHere(now, views[l := v]) && AllIn(now, v.orders)
    requires forall x | x in mem && mem[x].locate != l :: x in now && now[x] == mem[x]
    ensures ListsOf(now, views[l := v]) == ListsOf(mem, views)[l := Entries(now, v.orders)]
  {
    hide ViewOk, Entries;
    forall m | 0 <= m < |views| && m != l ensures Entries(now, views[m].orders) == Entries(mem, views[m].orders) {
      assert OwnOrders(mem, views[m], m);
      assert views[l := v][m] == views[m];
      EntriesFrame(mem, now, views[m].orders);
    }
  }

  // ---- How many orders there are ----

  function TotalOrders(views: seq<BookView>): nat {
    if views == [] then 0 else TotalOrders(views[..|views| - 1]) + |views[|views| - 1].orders|
  }

  lemma {:induction false} TotalUpdate(views: seq<BookView>, l: nat, v: BookView)
    requires l < |views|
    ensures TotalOrders(views[l := v]) == TotalOrders(views) - |views[l].orders| + |v.orders|
  {
    var last := |views| - 1;
    if l == last {
      assert views[l := v][..last] == views[..last];
    } else {
      assert views[l := v][..last] == views[..last][l := v];
      TotalUpdate(views[..last], l, v);
    }
  }

  function SumCounts(levels: seq<PriceLevel>): nat {
    if levels == [] then 0 else SumCounts(levels[..|levels| - 1]) + levels[|levels| - 1].orderCount
  }

  ghost function SumQueues(mem: Memory, orders: seq<nat>, side: BookSide, levels: seq<PriceLevel>): nat
    requires AllIn(mem, orders)
  {
    if levels == [] then 0
    else
      var last := |levels| - 1;
      SumQueues(mem, orders, side, levels[..last]) + |Queue(mem, orders, side, levels[last].price)|
  }

  ghost function CountSide(mem: Memory, orders: seq<nat>, side: BookSide): nat
    requires AllIn(mem, orders)
  {
    if orders == [] then 0
    else CountSide(mem, orders[..|orders| - 1], side) + if mem[orders[|orders| - 1]].side == side then 1 else 0
  }

  lemma {:induction false} CountsAreQueues(mem: Memory, orders: seq<nat>, side: BookSide, levels: seq<PriceLevel>)
    requires AllIn(mem, orders)
    requires forall i | 0 <= i < |levels| :: levels[i].orderCount == |Queue(mem, orders, side, levels[i].price)|
    ensures SumCounts(levels) == SumQueues(mem, orders, side, levels)
  {
    if levels != [] {
      CountsAreQueues(mem, orders, side, levels[..|levels| - 1]);
    }
  }

  /** One more order lengthens the queue of the one level at its price. */
  lemma {:induction false} SumQueuesStep(mem: Memory, orders: seq<nat>, p: nat, side: BookSide, levels: seq<PriceLevel>)
    requires AllIn(mem, orders) && p in mem && Sorted(side, levels)
    ensures AllIn(mem, orders + [p])
    ensures SumQueues(mem, orders + [p], side, levels) ==
      SumQueues(mem, orders, side, levels) + if mem[p].side == side && HasLevel(levels, mem[p].price) then 1 else 0
  {
    hide Queue;
    if levels != [] {
      var last := |levels| - 1;
      SumQueuesStep(mem, orders, p, side, levels[..last]);
      QueueAppend(mem, orders, p, side, levels[last].price);
      var price := mem[p].price;
      assert HasLevel(levels, price) <==> HasLevel(levels[..last], price) || levels[last].price == price;
      assert forall i | 0 <= i < last :: Better(side, levels[last].price, levels[..last][i].price);
    }
  }

  lemma {:induction false} QueuesCountSide(mem: Memory, orders: seq<nat>, side: BookSide, levels: seq<PriceLevel>)
    requires AllIn(mem, orders) && Sorted(side, levels)
    requires forall k | 0 <= k < |orders| && mem[orders[k]].side == side :: HasLevel(levels, mem[orders[k]].price)
    ensures SumQueues(mem, orders, side, levels) == CountSide(mem, orders, side)
  {
    if orders == [] {
      NoQueues(mem, side, levels);
    } else {
      var before, last := orders[..|orders| - 1], orders[|orders| - 1];
      assert before + [last] == orders;
      QueuesCountSide(mem, before, side, levels);
      SumQueuesStep(mem, before, last, side, levels);
    }
  }

  lemma {:induction false} NoQueues(mem: Memory, side: BookSide, levels: seq<PriceLevel>)
    ensures SumQueues(mem, [], side, levels) == 0
  {
    if levels != [] {
      NoQueues(mem, side, levels[..|levels| - 1]);
    }
  }

  lemma {:induction false} BothSides(mem: Memory, orders: seq<nat>)
    requires AllIn(mem, orders)
    ensures CountSide(mem, orders, Bid) + CountSide(mem, orders, Ask) == |orders|
  {
    if orders != [] {
      BothSides(mem, orders[..|orders| - 1]);
    }
  }

  /** The order counts of a book's levels add up to its live orders. */
  lemma LevelCountsAddUp(mem: Memory, v: BookView)
    requires ViewOk(mem, v)
    ensures SumCounts(v.bids) + SumCounts(v.asks) == |v.orders|
  {
    hide Queue;
    CountsAreQueues(mem, v.orders, Bid, v.bids);
    CountsAreQueues(mem, v.orders, Ask, v.asks);
    QueuesCountSide(mem, v.orders, Bid, v.bids);
    QueuesCountSide(mem, v.orders, Ask, v.asks);
    BothSides(mem, v.orders);
  }

  // ---- The three changes, whole ----

  /** Adding an order whose reference is free appends one entry. */
  lemma AddWorld(mem: Memory, idx: Index, views: seq<BookView>, p: nat, o: BookOrder, now: Memory, v: BookView)
    requires Consistent(mem, idx, views) && o.locate < |views|
    requires p !in mem && o.ref !in idx && o.ref != NO_REF
    requires v.orders == views[o.locate].orders + [p]
    requires LinksOnly(mem[p := o], now, v.orders) && ViewOk(now, v)
    ensures AllHere(mem, views) && AllHere(now, views[o.locate := v])
    ensures Consistent(now, idx[o.ref := p], views[o.locate := v])
    ensures ListsOf(now, views[o.locate := v]) == Append(ListsOf(mem, views), o.locate, EntryOf(o))
    ensures TotalOrders(views[o.locate := v]) == TotalOrders(views) + 1
  {
    hide ViewOk, IndexOk, ListsOf, IsLive, Entries;
    var l, t := o.locate, views[o.locate := v];
    AddConsistent(mem, idx, views, p, o, now, v);
    Here(mem, idx, views);
    Here(now, idx[o.ref := p], t);
    IndexIsLive(mem, idx, views, o.ref);
    AddFrame(mem, idx, views, p, o, now, v);
    assert t[l] == v;
    ListsUpdate(mem, now, views, l, v);
    assert Entries(now, v.orders) == Entries(mem, views[l].orders) + [EntryOf(o)];
    TotalUpdate(views, l, v);
  }

  lemma AddFrame(mem: Memory, idx: Index, views: seq<BookView>, p: nat, o: BookOrder, now: Memory, v: BookView)
    requires Consistent(mem, idx, views) && AllHere(mem, views) && o.locate < |views| && p !in mem
    requires v.orders == views[o.locate].orders + [p]
    requires LinksOnly(mem[p := o], now, v.orders)
    ensures forall x | x in mem && mem[x].locate != o.locate :: x in now && now[x] == mem[x]
    ensures AllIn(now, v.orders) && EntryOf(now[p]) == EntryOf(o)
    ensures forall k | 0 <= k < |views[o.locate].orders| ::
      EntryOf(now[views[o.locate].orders[k]]) == EntryOf(mem[views[o.locate].orders[k]])
  {
    hide ViewOk, IndexOk;
    var l, was, m := o.locate, views[o.locate], mem[p := o];
    assert OwnOrders(mem, was, l);
    forall x | x in m ensures EntryOf(now[x]) == EntryOf(m[x]) {
      assert now[x].(prev := NULL, next := NULL) == m[x].(prev := NULL, next := NULL);
    }
    forall x | x in mem && mem[x].locate != l ensures x in now && now[x] == mem[x] {
      assert x !in v.orders;
    }
  }

  /** Taking shares off an order changes its entry where it stands. */
  lemma ReduceWorld(mem: Memory, idx: Index, views: seq<BookView>, p: nat, shares: u32, v: BookView)
    requires Consistent(mem, idx, views) && p in mem && shares < mem[p].shares
    requires mem[p].locate < |views| && v.orders == views[mem[p].locate].orders
    requires ViewOk(mem[p := mem[p].(shares := mem[p].shares - shares)], v)
    ensures var now, t := mem[p := mem[p].(shares := mem[p].shares - shares)], views[mem[p].locate := v];
      && AllHere(mem, views) && AllHere(now, t)
      && Consistent(now, idx, t)
      && ListsOf(now, t) == Apply(ListsOf(mem, views), Take(mem[p].ref, shares))
      && TotalOrders(t) == TotalOrders(views)
  {
    hide ViewOk, IndexOk, ListsOf, IsLive, Entries, Place, BooksOk, LiveAt;
    var l, now := mem[p].locate, mem[p := mem[p].(shares := mem[p].shares - shares)];
    var t := views[l := v];
    ReduceConsistent(mem, idx, views, p, shares, v);
    Here(mem, idx, views);
    Here(now, idx, t);
    var k := PlaceOf(mem, idx, views, p);
    assert t[l] == v;
    ListsUpdate(mem, now, views, l, v);
    ReducedEntries(mem, views[l].orders, p, shares, k);
    TotalUpdate(views, l, v);
  }

  lemma ReducedEntries(mem: Memory, orders: seq<nat>, p: nat, shares: u32, k: nat)
    requires AllIn(mem, orders) && Distinct(orders) && p in mem && shares <= mem[p].shares && k < |orders|
        && orders[k] == p
    ensures var now, e := mem[p := mem[p].(shares := mem[p].shares - shares)], EntryOf(mem[p]);
      AllIn(now, orders) && Entries(now, orders) == Entries(mem, orders)[k := e.(shares := e.shares - shares)]
  {
  }

  /** The place of a live slot in its book's arrival order, which is the place of its reference. */
  lemma PlaceOf(mem: Memory, idx: Index, views: seq<BookView>, p: nat) returns (k: nat)
    requires Consistent(mem, idx, views) && AllHere(mem, views) && p in mem
    ensures mem[p].locate < |views| && k < |views[mem[p].locate].orders| && views[mem[p].locate].orders[k] == p
    ensures Distinct(views[mem[p].locate].orders)
    ensures var lists := ListsOf(mem, views);
      IsLive(lists, mem[p].ref) && Place(lists, mem[p].ref) == (mem[p].locate, k)
    ensures ListsOf(mem, views)[mem[p].locate][k] == EntryOf(mem[p])
  {
    SlotIsLinked(mem, idx, views, p);
    assert idx[mem[p].ref] == p;
    k :| k < |views[mem[p].locate].orders| && views[mem[p].locate].orders[k] == p;
    PlaceIs(mem, idx, views, mem[p].ref, k);
    assert ViewOk(mem, views[mem[p].locate]);
  }

  /** Removing an order takes its entry out of the list. */
  lemma RemoveWorld(mem: Memory, idx: Index, views: seq<BookView>, p: nat, now: Memory, v: BookView)
    requires Consistent(mem, idx, views) && p in mem && mem[p].locate < |views|
    requires v.orders == Without(views[mem[p].locate].orders, p)
    requires LinksOnly(mem, now, views[mem[p].locate].orders) && ViewOk(now, v)
    ensures var t := views[mem[p].locate := v];
      && AllHere(mem, views) && AllHere(now - {p}, t)
      && Consistent(now - {p}, idx - {mem[p].ref}, t)
      && ListsOf(now - {p}, t) == Apply(ListsOf(mem, views), Delete(mem[p].ref))
      && TotalOrders(t) == TotalOrders(views) - 1
  {
    hide ViewOk, IndexOk, ListsOf, IsLive, Entries, Place, BooksOk, Without, LinksOnly, LiveAt;
    var l, end, t := mem[p].locate, now - {p}, views[mem[p].locate := v];
    RemoveConsistent(mem, idx, views, p, now, v);
    Here(mem, idx, views);
    Here(end, idx - {mem[p].ref}, t);
    var k := PlaceOf(mem, idx, views, p);
    WithoutAt(views[l].orders, p, k);
    RemoveFrame(mem, idx, views, p, now);
    assert t[l] == v;
    ListsUpdate(mem, end, views, l, v);
    DroppedEntries(mem, end, views[l].orders, p, k);
    TotalUpdate(views, l, v);
  }

  lemma RemoveFrame(mem: Memory, idx: Index, views: seq<BookView>, p: nat, now: Memory)
    requires Consistent(mem, idx, views) && AllHere(mem, views) && p in mem && mem[p].locate < |views|
    requires LinksOnly(mem, now, views[mem[p].locate].orders)
    ensures forall x | x in mem && mem[x].locate != mem[p].locate :: x in now - {p} && (now - {p})[x] == mem[x]
    ensures forall x | x in mem && x != p :: x in now - {p} && EntryOf((now - {p})[x]) == EntryOf(mem[x])
  {
    hide ViewOk, IndexOk;
    var l := mem[p].locate;
    assert OwnOrders(mem, views[l], l);
    forall x | x in mem ensures EntryOf(now[x]) == EntryOf(mem[x]) {
      assert now[x].(prev := NULL, next := NULL) == mem[x].(prev := NULL, next := NULL);
    }
    forall x | x in mem && mem[x].locate != l ensures x in now && now[x] == mem[x] {
      assert x !in views[l].orders;
    }
  }

  lemma DroppedEntries(mem: Memory, end: Memory, orders: seq<nat>, p: nat, k: nat)
    requires AllIn(mem, orders) && Distinct(orders) && k < |orders| && orders[k] == p
    requires forall x | x in mem && x != p :: x in end && EntryOf(end[x]) == EntryOf(mem[x])
    ensures var r := orders[..k] + orders[k + 1..];
      AllIn(end, r) && Entries(end, r) == Entries(mem, orders)[..k] + Entries(mem, orders)[k + 1..]
  {
    var r := orders[..k] + orders[k + 1..];
    assert forall j | 0 <= j < |r| :: r[j] == orders[if j < k then j else j + 1];
  }
}
