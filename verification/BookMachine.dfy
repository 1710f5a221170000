/** The builder's events on flat lists: what its books, statistics and notifications must be after each. */
module BookMachine {
  import opened BigEndian
  import opened BookLevels
  import opened BookReference

  const MAX_LOCATES: nat := 65536
  const KEPT_EVENTS: nat := 100

  /** Best bid and ask; 0 for a side that is empty. */
  datatype Top = Top(bidPrice: nat, bidShares: nat, askPrice: nat, askShares: nat)

  const NOTHING: Top := Top(0, 0, 0, 0)

  datatype TopOfBook = TopOfBook(locate: nat, timestamp: nat, top: Top)

  datatype CrossedEvent = CrossedEvent(locate: nat, timestamp: nat, lastTradingAction: nat)

  datatype Stats = Stats(adds: nat, executions: nat, cancels: nat, deletes: nat, replacements: nat, trades: nat,
                         unknownRefs: nat, duplicateRefs: nat, overExecutions: nat, crossedDuringMarket: nat,
                         crossedWhileTrading: nat, tradingActions: nat, liveOrders: int, peakLiveOrders: int,
                         depthHistogram: seq<nat>)

  const NO_STATS: Stats := Stats(0, 0, 0, 0, 0, 0, 0, 0, 0, 0, 0, 0, 0, 0, [0, 0, 0, 0, 0, 0])

  // ---- What one instrument's list says ----

  /** The distinct prices on a side better than `price`. */
  ghost function BetterIn(es: seq<Entry>, side: BookSide, price: u32): set<u32> {
    set k | 0 <= k < |es| && es[k].side == side && Better(side, es[k].price, price) :: es[k].price
  }

  ghost function Depth(es: seq<Entry>, side: BookSide, price: u32): nat {
    |BetterIn(es, side, price)|
  }

  ghost predicate CrossedList(es: seq<Entry>) {
    exists b, a | 0 <= b < |es| && 0 <= a < |es| :: es[b].side == Bid && es[a].side == Ask && es[b].price >= es[a].price
  }

  function SharesAt(es: seq<Entry>, side: BookSide, price: u32): nat {
    if es == [] then 0
    else
      var last := es[|es| - 1];
      SharesAt(es[..|es| - 1], side, price) + if last.side == side && last.price == price then last.shares else 0
  }

  ghost predicate IsBestPrice(es: seq<Entry>, side: BookSide, price: u32) {
    && (exists k | 0 <= k < |es| :: es[k].side == side && es[k].price == price)
    && (forall k | 0 <= k < |es| && es[k].side == side :: !Better(side, es[k].price, price))
  }

  ghost function SideTop(es: seq<Entry>, side: BookSide): (nat, nat) {
    if exists price: u32 :: IsBestPrice(es, side, price)
    then
      var price: u32 :| IsBestPrice(es, side, price);
      (price, SharesAt(es, side, price))
    else (0, 0)
  }

  ghost function TopOf(es: seq<Entry>): Top {
    Top(SideTop(es, Bid).0, SideTop(es, Bid).1, SideTop(es, Ask).0, SideTop(es, Ask).1)
  }

  lemma BestPriceIs(es: seq<Entry>, side: BookSide, price: u32)
    requires IsBestPrice(es, side, price)
    ensures SideTop(es, side) == (price, SharesAt(es, side, price))
  {
    hide SharesAt;
    forall p: u32 | IsBestPrice(es, side, p) ensures p == price {
      var j :| 0 <= j < |es| && es[j].side == side && es[j].price == price;
      var k :| 0 <= k < |es| && es[k].side == side && es[k].price == p;
    }
  }

  // ---- The machine ----

  datatype World = World(lists: Lists, stats: Stats, calls: seq<TopOfBook>, market: bool, trading: seq<char>,
                         lastPrice: seq<u32>, lastAction: seq<nat>, crossedBy: seq<nat>,
                         crossedEvents: seq<CrossedEvent>)

  predicate Sized(w: World) {
    && |w.lists| == |w.trading| == |w.lastPrice| == |w.lastAction| == |w.crossedBy| == MAX_LOCATES
    && |w.stats.depthHistogram| == 6
  }

  /** One entry for each instrument. */
  function ForEach<T>(value: T): (s: seq<T>)
    ensures |s| == MAX_LOCATES && forall l | 0 <= l < |s| :: s[l] == value
  {
    seq(MAX_LOCATES, _ => value)
  }

  function Empty(): (w: World)
    ensures Sized(w)
  {
    World(ForEach([]), NO_STATS, [], false, ForEach('T'), ForEach(0), ForEach(0), ForEach(0), [])
  }

  /** Where each of the six ranges of depth begins: the top, the next level, and three more ranges before the rest. */
  const RANGES: seq<nat> := [0, 1, 2, 5, 10, 50]

  function Bucket(depth: nat): (b: nat)
    ensures b < 6 && RANGES[b] <= depth && (b < 5 ==> depth < RANGES[b + 1])
  {
    if depth == 0 then 0 else if depth == 1 then 1 else if depth < 5 then 2 else if depth < 10 then 3
    else if depth < 50 then 4 else 5
  }

  function Landed(histogram: seq<nat>, depth: nat): (r: seq<nat>)
    requires |histogram| == 6
    ensures |r| == 6
  {
    histogram[Bucket(depth) := histogram[Bucket(depth)] + 1]
  }

  function AddedStats(s: Stats, depth: nat): (r: Stats)
    requires |s.depthHistogram| == 6
    ensures |r.depthHistogram| == 6
  {
    s.(liveOrders := s.liveOrders + 1,
       peakLiveOrders := if s.liveOrders + 1 > s.peakLiveOrders then s.liveOrders + 1 else s.peakLiveOrders,
       depthHistogram := Landed(s.depthHistogram, depth))
  }

  function RemovedStats(s: Stats, depth: nat): (r: Stats)
    requires |s.depthHistogram| == 6
    ensures |r.depthHistogram| == 6
  {
    s.(liveOrders := s.liveOrders - 1, depthHistogram := Landed(s.depthHistogram, depth))
  }

  /** A crossed book of a trading instrument; the first hundred are kept. */
  function CrossKept(w: World, l: nat, ts: nat): (r: World)
    requires Sized(w) && l < MAX_LOCATES
    ensures Sized(r) && r.lists == w.lists
  {
    if w.trading[l] != 'T' then w
    else
      w.(stats := w.stats.(crossedWhileTrading := w.stats.crossedWhileTrading + 1),
         crossedEvents := if |w.crossedEvents| < KEPT_EVENTS
                          then w.crossedEvents + [CrossedEvent(l, ts, w.lastAction[l])] else w.crossedEvents)
  }

  /** A book left crossed during market hours. */
  ghost function CrossNoted(w: World, l: nat, ts: nat): (r: World)
    requires Sized(w) && l < MAX_LOCATES
    ensures Sized(r) && r.lists == w.lists
  {
    if !w.market || !CrossedList(w.lists[l]) then w
    else
      CrossKept(w.(stats := w.stats.(crossedDuringMarket := w.stats.crossedDuringMarket + 1),
                   crossedBy := w.crossedBy[l := w.crossedBy[l] + 1]), l, ts)
  }

  /** The same world with other lists and statistics. */
  function Listing(w: World, lists: Lists, stats: Stats): World {
    w.(lists := lists, stats := stats)
  }

  function Duplicate(w: World): World { w.(stats := w.stats.(duplicateRefs := w.stats.duplicateRefs + 1)) }

  function Unknown(w: World): World { w.(stats := w.stats.(unknownRefs := w.stats.unknownRefs + 1)) }

  function Over(w: World): World { w.(stats := w.stats.(overExecutions := w.stats.overExecutions + 1)) }

  ghost predicate Refused(lists: Lists, ref: u64) {
    ref == NO_REF || IsLive(lists, ref)
  }

  ghost function Added(w: World, l: nat, ts: nat, e: Entry): (r: World)
    requires Sized(w) && l < MAX_LOCATES
    ensures Sized(r)
  {
    if Refused(w.lists, e.ref) then Duplicate(w)
    else
      var lists := Append(w.lists, l, e);
      CrossNoted(w.(lists := lists, stats := AddedStats(w.stats, Depth(lists[l], e.side, e.price))), l, ts)
  }

  ghost function Removed(w: World, ref: u64): (r: World)
    requires Sized(w)
    ensures Sized(r)
  {
    if !IsLive(w.lists, ref) then w
    else
      var (l, k) := Place(w.lists, ref);
      var e := w.lists[l][k];
      w.(lists := Drop(w.lists, l, k), stats := RemovedStats(w.stats, Depth(w.lists[l], e.side, e.price)))
  }

  /** An execution or partial cancel takes at most what the order has left. */
  ghost function Taken(w: World, ref: u64, shares: u32): (r: World)
    requires Sized(w)
    ensures Sized(r)
  {
    if !IsLive(w.lists, ref) then w
    else
      var (l, k) := Place(w.lists, ref);
      var e := w.lists[l][k];
      var noted := if shares > e.shares then Over(w) else w;
      if shares >= e.shares then Removed(noted, ref)
      else
        var lists := Reduce(w.lists, l, k, shares);
        var histogram := Landed(w.stats.depthHistogram, Depth(lists[l], e.side, e.price));
        noted.(lists := lists, stats := noted.stats.(depthHistogram := histogram))
  }

  /** One more call when the top is a different one, and no call otherwise. */
  function Told(calls: seq<TopOfBook>, locate: nat, ts: nat, before: Top, after: Top): seq<TopOfBook> {
    if after != before then calls + [TopOfBook(locate, ts, after)] else calls
  }

  ghost function Telling(w: World, l: nat, ts: nat, before: Top): (r: World)
    requires Sized(w) && l < MAX_LOCATES
    ensures Sized(r)
  {
    w.(calls := Told(w.calls, l, ts, before, TopOf(w.lists[l])))
  }

  ghost function Notified(w: World, before: Lists, l: nat, ts: nat): (r: World)
    requires Sized(w) && |before| == MAX_LOCATES && l < MAX_LOCATES
    ensures Sized(r)
  {
    Telling(w, l, ts, TopOf(before[l]))
  }

  datatype Message =
    | NewOrder(locate: u16, ts: nat, ref: u64, side: char, shares: u32, price: u32)
    | Execution(ts: nat, ref: u64, shares: u32)
    | PricedExecution(ts: nat, ref: u64, shares: u32, printable: char, price: u32)
    | Cancel(ts: nat, ref: u64, shares: u32)
    | Deletion(ts: nat, ref: u64)
    | Replacement(ts: nat, oldRef: u64, newRef: u64, shares: u32, price: u32)
    | Trade(locate: u16, price: u32)
    | SystemEvent(code: char)
    | TradingAction(locate: u16, ts: nat, state: char)

  /** The counter of the message's kind. */
  function Counted(s: Stats, m: Message): (r: Stats)
    ensures r.depthHistogram == s.depthHistogram
  {
    match m
    case NewOrder(_, _, _, _, _, _) => s.(adds := s.adds + 1)
    case Execution(_, _, _) => s.(executions := s.executions + 1)
    case PricedExecution(_, _, _, _, _) => s.(executions := s.executions + 1)
    case Cancel(_, _, _) => s.(cancels := s.cancels + 1)
    case Deletion(_, _) => s.(deletes := s.deletes + 1)
    case Replacement(_, _, _, _, _) => s.(replacements := s.replacements + 1)
    case Trade(_, _) => s.(trades := s.trades + 1)
    case SystemEvent(_) => s
    case TradingAction(_, _, _) => s.(tradingActions := s.tradingActions + 1)
  }

  /** The order a message is about, if it is about one that should be live. */
  predicate Names(m: Message) {
    m.Execution? || m.PricedExecution? || m.Cancel? || m.Deletion? || m.Replacement?
  }

  function Named(m: Message): u64
    requires Names(m)
  {
    if m.Replacement? then m.oldRef else m.ref
  }

  /** The change to a live order's book, last price included, before the listener hears. */
  ghost function Changed(w: World, m: Message, l: nat): (r: World)
    requires Sized(w) && Names(m) && IsLive(w.lists, Named(m)) && l == Place(w.lists, Named(m)).0
    ensures Sized(r)
  {
    var e := EntryAt(w.lists, Named(m));
    match m
    case Execution(_, ref, shares) => Taken(w.(lastPrice := w.lastPrice[l := e.price]), ref, shares)
    case PricedExecution(_, ref, shares, printable, price) =>
      Taken(if printable == 'Y' then w.(lastPrice := w.lastPrice[l := price]) else w, ref, shares)
    case Cancel(_, ref, shares) => Taken(w, ref, shares)
    case Deletion(_, ref) => Removed(w, ref)
    case Replacement(ts, oldRef, newRef, shares, price) =>
      Added(Removed(w, oldRef), l, ts, Entry(newRef, e.side, price, shares))
  }

  ghost function Handle(w: World, m: Message): (r: World)
    requires Sized(w)
    ensures Sized(r)
  {
    var c := w.(stats := Counted(w.stats, m));
    if Names(m) then
      if !IsLive(c.lists, Named(m)) then Unknown(c)
      else
        var l := Place(c.lists, Named(m)).0;
        Notified(Changed(c, m, l), c.lists, l, m.ts)
    else
      match m
      case NewOrder(l, ts, ref, side, shares, price) =>
        Notified(Added(c, l, ts, Entry(ref, if side == 'B' then Bid else Ask, price, shares)), c.lists, l, ts)
      case Trade(l, price) => c.(lastPrice := c.lastPrice[l := price])
      case SystemEvent(code) => if code == 'Q' then c.(market := true) else if code ==
          'M' then c.(market := false) else c
      case TradingAction(l, ts, state) => c.(trading := c.trading[l := state], lastAction := c.lastAction[l := ts])
      case _ => c
  }

  ghost function RunAll(w: World, ms: seq<Message>): (r: World)
    requires Sized(w)
    ensures Sized(r)
  {
    if ms == [] then w else Handle(RunAll(w, ms[..|ms| - 1]), ms[|ms| - 1])
  }
}
