/** Laws of the book machine: what its books, statistics and notifications add up to over every run. */
module BookTotals {
  import opened BigEndian
  import opened BookLevels
  import opened BookReference
  import opened BookLaws
  import opened BookMachine

  // ---- The books ----

  /** The change to the flat lists that a message asks for. */
  function ListEvents(m: Message): seq<Event> {
    match m
    case NewOrder(l, _, ref, side, shares, price) =>
      [Event.Add(l, Entry(ref, if side == 'B' then Bid else Ask, price, shares))]
    case Execution(_, ref, shares) => [Event.Take(ref, shares)]
    case PricedExecution(_, ref, shares, _, _) => [Event.Take(ref, shares)]
    case Cancel(_, ref, shares) => [Event.Take(ref, shares)]
    case Deletion(_, ref) => [Event.Delete(ref)]
    case Replacement(_, oldRef, newRef, shares, price) => [Event.Replace(oldRef, newRef, shares, price)]
    case _ => []
  }

  function AllListEvents(ms: seq<Message>): seq<Event> {
    if ms == [] then [] else AllListEvents(ms[..|ms| - 1]) + ListEvents(ms[|ms| - 1])
  }

  ghost function ApplyAll(lists: Lists, es: seq<Event>): (r: Lists)
    requires |lists| == MAX_LOCATES && |es| <= 1
    ensures |r| == MAX_LOCATES
  {
    if es == [] then lists else Apply(lists, es[0])
  }

  lemma AddedLists(w: World, l: nat, ts: nat, e: Entry)
    requires Sized(w) && l < MAX_LOCATES
    ensures Added(w, l, ts, e).lists == Append(w.lists, l, e)
  {
    hide IsLive, CrossNoted, AddedStats, Depth;
  }

  lemma RemovedLists(w: World, ref: u64)
    requires Sized(w)
    ensures Removed(w, ref).lists == Apply(w.lists, Event.Delete(ref))
  {
    hide IsLive, Place, RemovedStats, Depth;
  }

  lemma TakenLists(w: World, ref: u64, shares: u32)
    requires Sized(w)
    ensures Taken(w, ref, shares).lists == Apply(w.lists, Event.Take(ref, shares))
  {
    hide IsLive, Place, RemovedStats, Landed, Depth;
  }

  /** Every message changes the lists as its event does. */
  lemma ListsFollow(w: World, m: Message)
    requires Sized(w)
    ensures Handle(w, m).lists == ApplyAll(w.lists, ListEvents(m))
  {
    hide IsLive, Place, Added, Removed, Taken, TopOf, Append, Drop, Reduce;
    var c := w.(stats := Counted(w.stats, m));
    if Names(m) {
      if IsLive(c.lists, Named(m)) {
        ChangedLists(c, m);
      }
    } else if m.NewOrder? {
      AddedLists(c, m.locate, m.ts, Entry(m.ref, if m.side == 'B' then Bid else Ask, m.price, m.shares));
    }
  }

  lemma ChangedLists(w: World, m: Message)
    requires Sized(w) && Names(m) && IsLive(w.lists, Named(m))
    ensures Changed(w, m, Place(w.lists, Named(m)).0).lists == ApplyAll(w.lists, ListEvents(m))
  {
    hide IsLive, Place, Added, Removed, Taken, Append, Drop, Reduce;
    var l := Place(w.lists, Named(m)).0;
    match m
    case Execution(_, ref, shares) =>
      TakenLists(w.(lastPrice := w.lastPrice[l := EntryAt(w.lists, ref).price]), ref, shares);
    case PricedExecution(_, ref, shares, _, price) =>
      TakenLists(w.(lastPrice := w.lastPrice[l := price]), ref, shares);
      TakenLists(w, ref, shares);
    case Cancel(_, ref, shares) => TakenLists(w, ref, shares);
    case Deletion(_, ref) => RemovedLists(w, ref);
    case Replacement(ts, oldRef, newRef, shares, price) =>
      RemovedLists(w, oldRef);
      AddedLists(Removed(w, oldRef), l, ts, Entry(newRef, EntryAt(w.lists, oldRef).side, price, shares));
  }

  // ---- The count of live orders ----

  function Size(lists: Lists): nat {
    if lists == [] then 0 else Size(lists[..|lists| - 1]) + |lists[|lists| - 1]|
  }

  lemma {:induction false} SizeUpdate(lists: Lists, l: nat, es: seq<Entry>)
    requires l < |lists|
    ensures Size(lists[l := es]) == Size(lists) - |lists[l]| + |es|
  {
    var last := |lists| - 1;
    if l == last {
      assert lists[l := es][..last] == lists[..last];
    } else {
      assert lists[l := es][..last] == lists[..last][l := es];
      SizeUpdate(lists[..last], l, es);
    }
  }

  lemma {:induction false} EmptySize(lists: Lists)
    requires forall l | 0 <= l < |lists| :: lists[l] == []
    ensures Size(lists) == 0
  {
    if lists != [] {
      EmptySize(lists[..|lists| - 1]);
    }
  }

  lemma DropSize(lists: Lists, l: nat, k: nat)
    requires l < |lists| && k < |lists[l]|
    ensures Size(Drop(lists, l, k)) == Size(lists) - 1
  {
    hide Size;
    SizeUpdate(lists, l, lists[l][..k] + lists[l][k + 1..]);
  }

  predicate LiveCounted(w: World) {
    w.stats.liveOrders == Size(w.lists) && w.stats.liveOrders <= w.stats.peakLiveOrders
  }

  lemma AddedCounted(w: World, l: nat, ts: nat, e: Entry)
    requires Sized(w) && l < MAX_LOCATES && LiveCounted(w)
    ensures LiveCounted(Added(w, l, ts, e)) && Size(Added(w, l, ts, e).lists) <= Size(w.lists) + 1
  {
    hide Size, IsLive, CrossedList, Depth, Landed;
    SizeUpdate(w.lists, l, w.lists[l] + [e]);
  }

  lemma RemovedCounted(w: World, ref: u64)
    requires Sized(w) && LiveCounted(w)
    ensures LiveCounted(Removed(w, ref)) && Size(Removed(w, ref).lists) <= Size(w.lists)
    ensures IsLive(w.lists, ref) ==> Size(Removed(w, ref).lists) == Size(w.lists) - 1
  {
    hide Size, IsLive, Place, Drop, Depth, Landed;
    if IsLive(w.lists, ref) {
      var (l, k) := Place(w.lists, ref);
      DropSize(w.lists, l, k);
    }
  }

  lemma TakenCounted(w: World, ref: u64, shares: u32)
    requires Sized(w) && LiveCounted(w)
    ensures LiveCounted(Taken(w, ref, shares)) && Size(Taken(w, ref, shares).lists) <= Size(w.lists)
  {
    hide Size, IsLive, Place, Drop, Depth, Landed, Removed;
    if IsLive(w.lists, ref) {
      var (l, k) := Place(w.lists, ref);
      var e := w.lists[l][k];
      RemovedCounted(w, ref);
      RemovedCounted(Over(w), ref);
      if shares < e.shares {
        SizeUpdate(w.lists, l, w.lists[l][k := e.(shares := e.shares - shares)]);
      }
    }
  }

  /** `liveOrders` counts the entries, before and after every message, and no message adds more than one. */
  lemma HandleCounted(w: World, m: Message)
    requires Sized(w) && LiveCounted(w)
    ensures LiveCounted(Handle(w, m)) && Size(Handle(w, m).lists) <= Size(w.lists) + 1
  {
    hide IsLive, Place, Added, Removed, Taken, TopOf, Size;
    var c := w.(stats := Counted(w.stats, m));
    if Names(m) {
      if IsLive(c.lists, Named(m)) {
        ChangedCounted(c, m);
      }
    } else if m.NewOrder? {
      AddedCounted(c, m.locate, m.ts, Entry(m.ref, if m.side == 'B' then Bid else Ask, m.price, m.shares));
    }
  }

  lemma ChangedCounted(w: World, m: Message)
    requires Sized(w) && Names(m) && IsLive(w.lists, Named(m)) && LiveCounted(w)
    ensures var t := Changed(w, m, Place(w.lists, Named(m)).0);
      LiveCounted(t) && Size(t.lists) <= Size(w.lists) + 1
  {
    hide IsLive, Place, Added, Removed, Taken, Size;
    var l := Place(w.lists, Named(m)).0;
    match m
    case Execution(_, ref, shares) =>
      TakenCounted(w.(lastPrice := w.lastPrice[l := EntryAt(w.lists, ref).price]), ref, shares);
    case PricedExecution(_, ref, shares, _, price) =>
      TakenCounted(w.(lastPrice := w.lastPrice[l := price]), ref, shares);
      TakenCounted(w, ref, shares);
    case Cancel(_, ref, shares) => TakenCounted(w, ref, shares);
    case Deletion(_, ref) => RemovedCounted(w, ref);
    case Replacement(ts, oldRef, newRef, shares, price) =>
      RemovedCounted(w, oldRef);
      AddedCounted(Removed(w, oldRef), l, ts, Entry(newRef, EntryAt(w.lists, oldRef).side, price, shares));
  }

  // ---- The listener ----

  /** What the listener last heard about an instrument. */
  function Heard(calls: seq<TopOfBook>, l: nat): Top {
    if calls == [] then NOTHING
    else if calls[|calls| - 1].locate == l then calls[|calls| - 1].top
    else Heard(calls[..|calls| - 1], l)
  }

  /** What the listener heard is what the lists show. */
  ghost predicate Informed(w: World) {
    forall l | 0 <= l < |w.lists| :: Heard(w.calls, l) == TopOf(w.lists[l])
  }

  predicate SameExcept(a: Lists, b: Lists, l: nat) {
    |a| == |b| && forall m | 0 <= m < |a| && m != l :: a[m] == b[m]
  }

  /** Telling about the one instrument whose list changed keeps the listener informed. */
  lemma ToldIsInformed(w: World, before: Lists, l: nat, ts: nat)
    requires Sized(w) && |before| == MAX_LOCATES && l < MAX_LOCATES && SameExcept(before, w.lists, l)
    requires forall m | 0 <= m < |before| :: Heard(w.calls, m) == TopOf(before[m])
    ensures Informed(Notified(w, before, l, ts))
    ensures w.calls <= Notified(w, before, l, ts).calls && |Notified(w, before, l, ts).calls| <= |w.calls| + 1
  {
    hide TopOf;
    var after := Notified(w, before, l, ts);
    if TopOf(before[l]) != TopOf(w.lists[l]) {
      assert after.calls[..|after.calls| - 1] == w.calls;
    }
  }

  lemma AddedElsewhere(w: World, l: nat, ts: nat, e: Entry)
    requires Sized(w) && l < MAX_LOCATES
    ensures SameExcept(w.lists, Added(w, l, ts, e).lists, l) && Added(w, l, ts, e).calls == w.calls
  {
    hide IsLive, CrossedList, Depth, Landed;
  }

  lemma RemovedElsewhere(w: World, ref: u64)
    requires Sized(w) && IsLive(w.lists, ref)
    ensures SameExcept(w.lists, Removed(w, ref).lists, Place(w.lists, ref).0) && Removed(w, ref).calls == w.calls
  {
    hide IsLive, Place, Depth, Landed;
  }

  lemma TakenElsewhere(w: World, ref: u64, shares: u32)
    requires Sized(w) && IsLive(w.lists, ref)
    ensures SameExcept(w.lists, Taken(w, ref, shares).lists, Place(w.lists, ref).0)
    ensures Taken(w, ref, shares).calls == w.calls
  {
    hide IsLive, Place, Depth, Landed;
  }

  lemma ChangedElsewhere(w: World, m: Message)
    requires Sized(w) && Names(m) && IsLive(w.lists, Named(m))
    ensures var l := Place(w.lists, Named(m)).0;
      SameExcept(w.lists, Changed(w, m, l).lists, l) && Changed(w, m, l).calls == w.calls
  {
    hide IsLive, Place, Added, Removed, Taken;
    var l := Place(w.lists, Named(m)).0;
    match m
    case Execution(_, ref, shares) =>
      TakenElsewhere(w.(lastPrice := w.lastPrice[l := EntryAt(w.lists, ref).price]), ref, shares);
    case PricedExecution(_, ref, shares, _, price) =>
      TakenElsewhere(w.(lastPrice := w.lastPrice[l := price]), ref, shares);
      TakenElsewhere(w, ref, shares);
    case Cancel(_, ref, shares) => TakenElsewhere(w, ref, shares);
    case Deletion(_, ref) => RemovedElsewhere(w, ref);
    case Replacement(ts, oldRef, newRef, shares, price) =>
      RemovedElsewhere(w, oldRef);
      AddedElsewhere(Removed(w, oldRef), l, ts, Entry(newRef, EntryAt(w.lists, oldRef).side, price, shares));
  }

  /** Every message keeps the listener informed, with one call at most. */
  lemma HandleInforms(w: World, m: Message)
    requires Sized(w) && Informed(w)
    ensures Informed(Handle(w, m)) && w.calls <= Handle(w, m).calls && |Handle(w, m).calls| <= |w.calls| + 1
  {
    hide IsLive, Place, Added, Changed, TopOf, Heard, Notified;
    var c := w.(stats := Counted(w.stats, m));
    if Names(m) {
      if IsLive(c.lists, Named(m)) {
        var l := Place(c.lists, Named(m)).0;
        ChangedElsewhere(c, m);
        ToldIsInformed(Changed(c, m, l), c.lists, l, m.ts);
      }
    } else if m.NewOrder? {
      var e := Entry(m.ref, if m.side == 'B' then Bid else Ask, m.price, m.shares);
      AddedElsewhere(c, m.locate, m.ts, e);
      ToldIsInformed(Added(c, m.locate, m.ts, e), c.lists, m.locate, m.ts);
    }
  }

  // ---- Over every run ----

  lemma ListsStep(lists: Lists, es: seq<Event>, more: seq<Event>)
    requires |lists| == MAX_LOCATES && |more| <= 1
    ensures BookLaws.Run(lists, es + more) == ApplyAll(BookLaws.Run(lists, es), more)
  {
    hide Apply;
    if more == [] {
      assert es + more == es;
    } else {
      assert (es + more)[..|es|] == es;
    }
  }

  /**
   * Over every run: the lists are the reference run's, references stay unique, `liveOrders` counts the entries, and
   * the listener has heard every best price, with at most one call a message.
   */
  lemma {:induction false} RunTotals(w: World, ms: seq<Message>)
    requires Sized(w) && Unique(w.lists) && LiveCounted(w) && Informed(w)
    ensures var t := RunAll(w, ms);
      && t.lists == BookLaws.Run(w.lists, AllListEvents(ms)) && Unique(t.lists)
      && LiveCounted(t) && Size(t.lists) <= Size(w.lists) + |ms|
      && Informed(t) && w.calls <= t.calls && |t.calls| <= |w.calls| + |ms|
  {
    hide Handle, BookLaws.Run, Unique, Size, Informed, LiveCounted, Apply;
    if ms == [] {
      RunNothing(w.lists);
    } else {
      var before, m := ms[..|ms| - 1], ms[|ms| - 1];
      RunTotals(w, before);
      var t := RunAll(w, before);
      ListsFollow(t, m);
      ListsStep(w.lists, AllListEvents(before), ListEvents(m));
      HandleCounted(t, m);
      HandleInforms(t, m);
      RunUnique(w.lists, AllListEvents(ms));
    }
  }

  lemma RunNothing(lists: Lists)
    requires |lists| == MAX_LOCATES
    ensures BookLaws.Run(lists, []) == lists
  {
  }

  lemma EmptyCounts()
    ensures var w := Empty(); Unique(w.lists) && LiveCounted(w) && Informed(w)
  {
    EmptySize(Empty().lists);
  }

  lemma EmptyIsSmall()
    ensures Size(Empty().lists) == 0 && Empty().stats.peakLiveOrders == 0 && Empty().calls == []
  {
    EmptySize(Empty().lists);
  }
}
