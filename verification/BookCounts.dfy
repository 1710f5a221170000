/** What the builder's statistics count over every run, message by message. */
module BookCounts {
  import opened Basics
  import opened BigEndian
  import opened BookLevels
  import opened BookReference
  import opened BookLaws
  import opened BookMachine
  import opened BookTotals

  // ---- What a message finds ----

  /** It is about an order, and no order has that reference. */
  ghost predicate IsUnknown(w: World, m: Message) {
    Names(m) && !IsLive(w.lists, Named(m))
  }

  ghost predicate IsFound(w: World, m: Message) {
    Names(m) && IsLive(w.lists, Named(m))
  }

  ghost predicate TakesTooMuch(w: World, m: Message) {
    && (m.Execution? || m.PricedExecution? || m.Cancel?)
    && IsLive(w.lists, m.ref) && m.shares > EntryAt(w.lists, m.ref).shares
  }

  /** It brings an order: a new one, or one in the place of a live one. */
  ghost predicate Brings(w: World, m: Message) {
    m.NewOrder? || (m.Replacement? && IsLive(w.lists, m.oldRef))
  }

  function BroughtRef(m: Message): u64
    requires m.NewOrder? || m.Replacement?
  {
    if m.NewOrder? then m.ref else m.newRef
  }

  /** The order it brings joins a book: its reference is usable, and not live unless the message itself frees it. */
  ghost predicate Joins(w: World, m: Message) {
    && Brings(w, m) && BroughtRef(m) != NO_REF
    && (IsLive(w.lists, BroughtRef(m)) ==> m.Replacement? && m.newRef == m.oldRef)
  }

  ghost predicate IsDuplicate(w: World, m: Message) {
    Brings(w, m) && !Joins(w, m)
  }

  ghost function Brought(w: World, m: Message): Entry
    requires Brings(w, m)
  {
    if m.NewOrder? then Entry(m.ref, if m.side == 'B' then Bid else Ask, m.price, m.shares)
    else Entry(m.newRef, EntryAt(w.lists, m.oldRef).side, m.price, m.shares)
  }

  /** The instrument whose book it changes. */
  ghost function Where(w: World, m: Message): (l: nat)
    requires m.NewOrder? || IsFound(w, m)
    ensures Sized(w) ==> l < MAX_LOCATES
  {
    if m.NewOrder? then m.locate else Place(w.lists, Named(m)).0
  }

  /** It leaves the book that its order joined crossed, during market hours. */
  ghost predicate Crosses(w: World, m: Message) {
    Sized(w) && Joins(w, m) && w.market && CrossedList(Handle(w, m).lists[Where(w, m)])
  }

  ghost predicate CrossesWhileTrading(w: World, m: Message) {
    Crosses(w, m) && w.trading[Where(w, m)] == 'T'
  }

  ghost predicate CrossesAt(w: World, m: Message, l: nat) {
    Crosses(w, m) && Where(w, m) == l
  }

  /** It changes or removes a live order with so many better prices that bucket `b` counts it. */
  ghost predicate TouchesAt(w: World, m: Message, b: nat) {
    IsFound(w, m) && var e := EntryAt(w.lists, Named(m)); Bucket(Depth(w.lists[Where(w, m)], e.side, e.price)) == b
  }

  /** Its order joins a book behind so many better prices that bucket `b` counts it. */
  ghost predicate JoinsAt(w: World, m: Message, b: nat) {
    Sized(w) && Joins(w, m)
    && var e := Brought(w, m); Bucket(Depth(Handle(w, m).lists[Where(w, m)], e.side, e.price)) == b
  }

  function One(b: bool): nat { if b then 1 else 0 }

  // ---- What a message sets ----

  /** The price it makes the last one of instrument `l`, if it makes one. */
  ghost function PriceOf(w: World, m: Message, l: nat): Option<u32> {
    if m.Trade? && m.locate == l then Some(m.price)
    else if !IsFound(w, m) || Where(w, m) != l then None
    else if m.Execution? then Some(EntryAt(w.lists, m.ref).price)
    else if m.PricedExecution? && m.printable == 'Y' then Some(m.price)
    else None
  }

  function MarketBy(m: Message): Option<bool> {
    if m == SystemEvent('Q') then Some(true) else if m == SystemEvent('M') then Some(false) else None
  }

  /** The trading state that it puts instrument `l` in, and when. */
  function StateOf(m: Message, l: nat): Option<(char, nat)> {
    if m.TradingAction? && m.locate == l then Some((m.state, m.ts)) else None
  }

  /** What the listener is told: the top of the one instrument whose top it changed, with its own time. */
  ghost function CallBy(w: World, m: Message): Option<TopOfBook> {
    if Sized(w) && (m.NewOrder? || IsFound(w, m))
        && TopOf(Handle(w, m).lists[Where(w, m)]) != TopOf(w.lists[Where(w, m)])
    then Some(TopOfBook(Where(w, m), m.ts, TopOf(Handle(w, m).lists[Where(w, m)])))
    else None
  }

  /** The book it left crossed while trading, with the time of the last trading action there. */
  ghost function EventBy(w: World, m: Message): Option<CrossedEvent> {
    if CrossesWhileTrading(w, m) then Some(CrossedEvent(Where(w, m), m.ts, w.lastAction[Where(w, m)])) else None
  }

  function Else<T>(o: Option<T>, otherwise: T): T {
    match o case Some(v) => v case None => otherwise
  }

  function AndThen<T>(s: seq<T>, o: Option<T>): seq<T> {
    match o case Some(v) => s + [v] case None => s
  }

  // ---- What the machine's parts do ----

  lemma DepthReduced(es: seq<Entry>, k: nat, shares: u32, side: BookSide, price: u32)
    requires k < |es| && shares <= es[k].shares
    ensures Depth(es[k := es[k].(shares := es[k].shares - shares)], side, price) == Depth(es, side, price)
  {
    var now := es[k := es[k].(shares := es[k].shares - shares)];
    forall j | 0 <= j < |es| ensures now[j].side == es[j].side && now[j].price == es[j].price {
    }
    assert BetterIn(now, side, price) == BetterIn(es, side, price);
  }

  lemma TakenIs(w: World, ref: u64, shares: u32)
    requires Sized(w) && IsLive(w.lists, ref)
    ensures var t, e, l := Taken(w, ref, shares), EntryAt(w.lists, ref), Place(w.lists, ref).0;
      t == w.(lists := t.lists,
              stats := w.stats.(overExecutions := w.stats.overExecutions + One(shares > e.shares),
                                liveOrders := t.stats.liveOrders,
                                depthHistogram := Landed(w.stats.depthHistogram,
                                                         Depth(w.lists[l], e.side, e.price))))
  {
    hide IsLive, Place, Depth, Landed;
    var (l, k) := Place(w.lists, ref);
    var e := w.lists[l][k];
    if shares < e.shares {
      DepthReduced(w.lists[l], k, shares, e.side, e.price);
    }
  }

  lemma AddedIs(w: World, l: nat, ts: nat, e: Entry)
    requires Sized(w) && l < MAX_LOCATES
    ensures var t := Added(w, l, ts, e);
      if Refused(w.lists, e.ref) then t == Duplicate(w)
      else
        var crossed := w.market && CrossedList(t.lists[l]);
        var trading := crossed && w.trading[l] == 'T';
        t == w.(lists := t.lists,
                stats := AddedStats(w.stats, Depth(t.lists[l], e.side, e.price))
                    .(crossedDuringMarket := w.stats.crossedDuringMarket + One(crossed),
                      crossedWhileTrading := w.stats.crossedWhileTrading + One(trading)),
                crossedBy := if crossed then w.crossedBy[l := w.crossedBy[l] + 1] else w.crossedBy,
                crossedEvents := if trading && |w.crossedEvents| < KEPT_EVENTS
                                 then w.crossedEvents + [CrossedEvent(l, ts, w.lastAction[l])] else w.crossedEvents)
  {
    hide IsLive, CrossedList, Depth, Landed;
  }

  /** Where a replacement may put its order is what is live once the old one is gone. */
  lemma FreedByItself(w: World, m: Message)
    requires Sized(w) && Unique(w.lists) && m.Replacement? && IsLive(w.lists, m.oldRef)
    ensures Refused(Removed(w, m.oldRef).lists, m.newRef) <==> !Joins(w, m)
  {
    hide IsLive, Unique, Drop, Depth, RemovedStats;
    var (l, k) := Place(w.lists, m.oldRef);
    DropUnique(w.lists, l, k);
  }

  // ---- What one message counts ----

  ghost predicate Tallied(w: World, m: Message, t: World) {
    && t.stats.adds == w.stats.adds + One(m.NewOrder?)
    && t.stats.executions == w.stats.executions + One(m.Execution? || m.PricedExecution?)
    && t.stats.cancels == w.stats.cancels + One(m.Cancel?)
    && t.stats.deletes == w.stats.deletes + One(m.Deletion?)
    && t.stats.replacements == w.stats.replacements + One(m.Replacement?)
    && t.stats.trades == w.stats.trades + One(m.Trade?)
    && t.stats.tradingActions == w.stats.tradingActions + One(m.TradingAction?)
    && t.stats.unknownRefs == w.stats.unknownRefs + One(IsUnknown(w, m))
    && t.stats.duplicateRefs == w.stats.duplicateRefs + One(IsDuplicate(w, m))
    && t.stats.overExecutions == w.stats.overExecutions + One(TakesTooMuch(w, m))
    && t.stats.crossedDuringMarket == w.stats.crossedDuringMarket + One(Crosses(w, m))
    && t.stats.crossedWhileTrading == w.stats.crossedWhileTrading + One(CrossesWhileTrading(w, m))
    && t.stats.peakLiveOrders >= w.stats.peakLiveOrders
    && (t.stats.peakLiveOrders == w.stats.peakLiveOrders || t.stats.peakLiveOrders == t.stats.liveOrders)
  }

  ghost predicate Placed(w: World, m: Message, t: World)
    requires Sized(w) && Sized(t)
  {
    && (forall b: nat | b < 6 :: t.stats.depthHistogram[b]
                               == w.stats.depthHistogram[b] + One(TouchesAt(w, m, b)) + One(JoinsAt(w, m, b)))
    && (forall l: nat | l < MAX_LOCATES :: t.crossedBy[l] == w.crossedBy[l] + One(CrossesAt(w, m, l)))
  }

  lemma UnknownTallied(w: World, m: Message)
    requires Sized(w) && IsUnknown(w, m)
    ensures Tallied(w, m, Handle(w, m)) && Placed(w, m, Handle(w, m))
  {
    hide IsLive, Place, Depth, CrossedList, Changed, Notified;
  }

  lemma NewOrderTallied(w: World, m: Message)
    requires Sized(w) && m.NewOrder?
    ensures Tallied(w, m, Handle(w, m)) && Placed(w, m, Handle(w, m))
  {
    hide IsLive, Place, Depth, CrossedList, Added, TopOf;
    AddedIs(w.(stats := Counted(w.stats, m)), m.locate, m.ts, Brought(w, m));
  }

  /** An execution or a cancel: `c` is what it is taken from, counted and with its last price. */
  lemma TakeTallied(w: World, m: Message, c: World)
    requires Sized(w) && IsFound(w, m) && (m.Execution? || m.PricedExecution? || m.Cancel?)
    requires Sized(c) && c == w.(stats := Counted(w.stats, m), lastPrice := c.lastPrice)
    requires Changed(w.(stats := Counted(w.stats, m)), m, Where(w, m)) == Taken(c, m.ref, m.shares)
    ensures Tallied(w, m, Handle(w, m)) && Placed(w, m, Handle(w, m))
  {
    hide IsLive, Place, Depth, CrossedList, Taken, TopOf, Changed, Handle, Landed, Crosses, JoinsAt, Tallied, Placed;
    TakenIs(c, m.ref, m.shares);
    FoundIs(w, m);
    JoinsNothing(w, m);
    TakeTallies(w, m, Handle(w, m));
    TouchesOnly(w, m, Handle(w, m));
  }

  /** A message about a live order, but for what the listener is told. */
  lemma FoundIs(w: World, m: Message)
    requires Sized(w) && IsFound(w, m)
    ensures Handle(w, m) == Changed(w.(stats := Counted(w.stats, m)), m, Where(w, m)).(calls := Handle(w, m).calls)
  {
    hide IsLive, Place, Changed, TopOf;
  }

  lemma JoinsNothing(w: World, m: Message)
    requires !Brings(w, m)
    ensures !Crosses(w, m) && forall b: nat :: !JoinsAt(w, m, b)
  {
    hide IsLive, Place, Handle, CrossedList, Depth;
  }

  lemma TakeTallies(w: World, m: Message, t: World)
    requires Sized(w) && IsFound(w, m) && (m.Execution? || m.PricedExecution? || m.Cancel?) && !Crosses(w, m)
    requires t.stats == Counted(w.stats, m).(overExecutions := t.stats.overExecutions, liveOrders := t.stats.liveOrders,
                                             depthHistogram := t.stats.depthHistogram)
    requires t.stats.overExecutions == w.stats.overExecutions + One(m.shares > EntryAt(w.lists, m.ref).shares)
    ensures Tallied(w, m, t)
  {
    hide IsLive, Place, Crosses;
  }

  /** A live order is touched and none joins: one more in the bucket of its depth, and nothing is crossed. */
  lemma TouchesOnly(w: World, m: Message, t: World)
    requires Sized(w) && Sized(t) && IsFound(w, m) && !Crosses(w, m) && forall b: nat :: !JoinsAt(w, m, b)
    requires t.crossedBy == w.crossedBy
    requires var e := EntryAt(w.lists, Named(m));
      t.stats.depthHistogram == Landed(w.stats.depthHistogram, Depth(w.lists[Where(w, m)], e.side, e.price))
    ensures Placed(w, m, t)
  {
    hide IsLive, Place, Crosses, JoinsAt, Depth;
  }

  lemma TakenFrom(w: World, m: Message) returns (c: World)
    requires Sized(w) && IsFound(w, m) && (m.Execution? || m.PricedExecution? || m.Cancel?)
    ensures Sized(c) && c == w.(stats := Counted(w.stats, m), lastPrice := c.lastPrice)
    ensures Changed(w.(stats := Counted(w.stats, m)), m, Where(w, m)) == Taken(c, m.ref, m.shares)
    ensures forall l: nat | l < MAX_LOCATES :: c.lastPrice[l] == Else(PriceOf(w, m, l), w.lastPrice[l])
  {
    hide IsLive, Place, Taken;
    var l := Where(w, m);
    c := w.(stats := Counted(w.stats, m));
    if m.Execution? {
      c := c.(lastPrice := c.lastPrice[l := EntryAt(c.lists, m.ref).price]);
    } else if m.PricedExecution? && m.printable == 'Y' {
      c := c.(lastPrice := c.lastPrice[l := m.price]);
    }
  }

  lemma DeletionTallied(w: World, m: Message)
    requires Sized(w) && IsFound(w, m) && m.Deletion?
    ensures Tallied(w, m, Handle(w, m)) && Placed(w, m, Handle(w, m))
  {
    hide IsLive, Place, Depth, CrossedList, Drop, TopOf;
  }

  lemma ReplacementTallied(w: World, m: Message)
    requires Sized(w) && Unique(w.lists) && IsFound(w, m) && m.Replacement?
    ensures Tallied(w, m, Handle(w, m)) && Placed(w, m, Handle(w, m))
  {
    hide IsLive, Place, Depth, CrossedList, Drop, Added, TopOf, Unique, Refused;
    var c, l := w.(stats := Counted(w.stats, m)), Where(w, m);
    FreedByItself(c, m);
    AddedIs(Removed(c, m.oldRef), l, m.ts, Brought(w, m));
  }

  lemma StepTallied(w: World, m: Message)
    requires Sized(w) && Unique(w.lists)
    ensures Tallied(w, m, Handle(w, m)) && Placed(w, m, Handle(w, m))
  {
    hide IsLive, Place, Depth, CrossedList, Handle, Tallied, Placed, Taken, Changed, Unique;
    if IsUnknown(w, m) {
      UnknownTallied(w, m);
    } else if m.NewOrder? {
      NewOrderTallied(w, m);
    } else if m.Deletion? {
      DeletionTallied(w, m);
    } else if m.Replacement? {
      ReplacementTallied(w, m);
    } else if IsFound(w, m) {
      var c := TakenFrom(w, m);
      TakeTallied(w, m, c);
    } else {
      OtherTallied(w, m);
    }
  }

  lemma OtherTallied(w: World, m: Message)
    requires Sized(w) && (m.Trade? || m.SystemEvent? || m.TradingAction?)
    ensures Tallied(w, m, Handle(w, m)) && Placed(w, m, Handle(w, m))
  {
    hide IsLive, Place, Depth, CrossedList, Crosses, JoinsAt, Landed;
    JoinsNothing(w, m);
  }

  // ---- What one message leaves ----

  ghost predicate Followed(w: World, m: Message, t: World)
    requires Sized(w) && Sized(t)
  {
    && t.market == Else(MarketBy(m), w.market)
    && (forall l: nat | l < MAX_LOCATES ::
          && t.lastPrice[l] == Else(PriceOf(w, m, l), w.lastPrice[l])
          && (t.trading[l], t.lastAction[l]) == Else(StateOf(m, l), (w.trading[l], w.lastAction[l])))
    && t.calls == AndThen(w.calls, CallBy(w, m))
    && t.crossedEvents == (if |w.crossedEvents| < KEPT_EVENTS then AndThen(w.crossedEvents, EventBy(w, m))
                           else w.crossedEvents)
  }

  lemma UnknownFollowed(w: World, m: Message)
    requires Sized(w) && IsUnknown(w, m)
    ensures Followed(w, m, Handle(w, m))
  {
    hide IsLive, Place, Depth, CrossedList, Changed, Notified;
  }

  lemma NewOrderFollowed(w: World, m: Message)
    requires Sized(w) && m.NewOrder?
    ensures Followed(w, m, Handle(w, m))
  {
    hide IsLive, Place, Depth, CrossedList, Added, TopOf, AddedStats;
    AddedIs(w.(stats := Counted(w.stats, m)), m.locate, m.ts, Brought(w, m));
  }

  lemma TakeFollowed(w: World, m: Message)
    requires Sized(w) && IsFound(w, m) && (m.Execution? || m.PricedExecution? || m.Cancel?)
    ensures Followed(w, m, Handle(w, m))
  {
    hide IsLive, Place, Depth, CrossedList, Taken, TopOf, Landed, Crosses;
    JoinsNothing(w, m);
    var c := TakenFrom(w, m);
    TakenIs(c, m.ref, m.shares);
  }

  lemma DeletionFollowed(w: World, m: Message)
    requires Sized(w) && IsFound(w, m) && m.Deletion?
    ensures Followed(w, m, Handle(w, m))
  {
    hide IsLive, Place, Depth, CrossedList, Drop, TopOf, Landed, Crosses;
    JoinsNothing(w, m);
  }

  lemma ReplacementFollowed(w: World, m: Message)
    requires Sized(w) && Unique(w.lists) && IsFound(w, m) && m.Replacement?
    ensures Followed(w, m, Handle(w, m))
  {
    hide IsLive, Place, Depth, CrossedList, Drop, Added, TopOf, Unique, Refused, AddedStats;
    var c, l := w.(stats := Counted(w.stats, m)), Where(w, m);
    FreedByItself(c, m);
    AddedIs(Removed(c, m.oldRef), l, m.ts, Brought(w, m));
  }

  lemma OtherFollowed(w: World, m: Message)
    requires Sized(w) && (m.Trade? || m.SystemEvent? || m.TradingAction?)
    ensures Followed(w, m, Handle(w, m))
  {
    hide IsLive, Place, Depth, CrossedList, CallBy, EventBy, Added, Changed, TopOf;
    BringsNothing(w, m);
  }

  lemma BringsNothing(w: World, m: Message)
    requires m.Trade? || m.SystemEvent? || m.TradingAction?
    ensures CallBy(w, m) == None && EventBy(w, m) == None
  {
    hide Crosses, Handle, TopOf;
    JoinsNothing(w, m);
  }

  lemma StepFollowed(w: World, m: Message)
    requires Sized(w) && Unique(w.lists)
    ensures Followed(w, m, Handle(w, m))
  {
    hide IsLive, Place, Handle, Followed, Unique;
    if IsUnknown(w, m) {
      UnknownFollowed(w, m);
    } else if m.NewOrder? {
      NewOrderFollowed(w, m);
    } else if m.Deletion? {
      DeletionFollowed(w, m);
    } else if m.Replacement? {
      ReplacementFollowed(w, m);
    } else if IsFound(w, m) {
      TakeFollowed(w, m);
    } else {
      OtherFollowed(w, m);
    }
  }
}
