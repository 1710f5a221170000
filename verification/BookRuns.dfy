/** The builder's statistics, prices, states and calls over every run, each from the messages alone. */
module BookRuns {
  import opened Basics
  import opened BigEndian
  import opened BookLevels
  import opened BookReference
  import opened BookLaws
  import opened BookMachine
  import opened BookTotals
  import opened BookCounts

  // ---- Messages of a kind ----

  ghost predicate IsNewOrder(w: World, m: Message) { m.NewOrder? }

  ghost predicate IsExecution(w: World, m: Message) { m.Execution? || m.PricedExecution? }

  ghost predicate IsCancel(w: World, m: Message) { m.Cancel? }

  ghost predicate IsDeletion(w: World, m: Message) { m.Deletion? }

  ghost predicate IsReplacement(w: World, m: Message) { m.Replacement? }

  ghost predicate IsTrade(w: World, m: Message) { m.Trade? }

  ghost predicate IsTradingAction(w: World, m: Message) { m.TradingAction? }

  ghost function TouchesIn(b: nat): (World, Message) -> bool {
    (w: World, m: Message) => TouchesAt(w, m, b)
  }

  ghost function JoinsIn(b: nat): (World, Message) -> bool {
    (w: World, m: Message) => JoinsAt(w, m, b)
  }

  ghost function CrossesBook(l: nat): (World, Message) -> bool {
    (w: World, m: Message) => CrossesAt(w, m, l)
  }

  /** The messages of a run that are of a kind, in the state that those before them leave. */
  ghost function Those(ms: seq<Message>, kind: (World, Message) -> bool): set<nat> {
    set i: nat | i < |ms| && kind(RunAll(Empty(), ms[..i]), ms[i])
  }

  ghost function Last(ms: seq<Message>): (World, Message)
    requires ms != []
  {
    (RunAll(Empty(), ms[..|ms| - 1]), ms[|ms| - 1])
  }

  lemma NoneOfThose(kind: (World, Message) -> bool)
    ensures |Those([], kind)| == 0
  {
    hide RunAll, Empty;
  }

  lemma OneMore(ms: seq<Message>, kind: (World, Message) -> bool)
    requires ms != []
    ensures |Those(ms, kind)| == |Those(ms[..|ms| - 1], kind)| + One(kind(Last(ms).0, Last(ms).1))
  {
    hide RunAll, Empty;
    var n := |ms| - 1;
    forall i: nat | i < n ensures ms[..n][..i] == ms[..i] && ms[..n][i] == ms[i] {
    }
    assert Those(ms, kind) == Those(ms[..n], kind) + if kind(Last(ms).0, Last(ms).1) then {n} else {};
  }

  // ---- Counts ----

  ghost predicate KindsCounted(ms: seq<Message>, s: Stats) {
    && s.adds == |Those(ms, IsNewOrder)|
    && s.executions == |Those(ms, IsExecution)|
    && s.cancels == |Those(ms, IsCancel)|
    && s.deletes == |Those(ms, IsDeletion)|
    && s.replacements == |Those(ms, IsReplacement)|
    && s.trades == |Those(ms, IsTrade)|
    && s.tradingActions == |Those(ms, IsTradingAction)|
  }

  ghost predicate FaultsCounted(ms: seq<Message>, s: Stats) {
    && s.unknownRefs == |Those(ms, IsUnknown)|
    && s.duplicateRefs == |Those(ms, IsDuplicate)|
    && s.overExecutions == |Those(ms, TakesTooMuch)|
    && s.crossedDuringMarket == |Those(ms, Crosses)|
    && s.crossedWhileTrading == |Those(ms, CrossesWhileTrading)|
  }

  /** The depth histogram, bucket by bucket, and the crossed books, instrument by instrument. */
  ghost predicate PlacesCounted(ms: seq<Message>, w: World) {
    && Sized(w)
    && (forall b: nat | b < 6 :: w.stats.depthHistogram[b] == |Those(ms, TouchesIn(b))| + |Those(ms, JoinsIn(b))|)
    && (forall l: nat | l < MAX_LOCATES :: w.crossedBy[l] == |Those(ms, CrossesBook(l))|)
  }

  lemma NoneCounted()
    ensures KindsCounted([], Empty().stats) && FaultsCounted([], Empty().stats) && PlacesCounted([], Empty())
  {
    hide Those;
    forall kind: (World, Message) -> bool ensures |Those([], kind)| == 0 {
      NoneOfThose(kind);
    }
  }

  lemma KindsOneMore(ms: seq<Message>, t: World)
    requires ms != [] && KindsCounted(ms[..|ms| - 1], Last(ms).0.stats) && Tallied(Last(ms).0, Last(ms).1, t)
    ensures KindsCounted(ms, t.stats)
  {
    hide Those, RunAll, Crosses, CrossesWhileTrading, IsUnknown, IsDuplicate, TakesTooMuch;
    OneMore(ms, IsNewOrder);
    OneMore(ms, IsExecution);
    OneMore(ms, IsCancel);
    OneMore(ms, IsDeletion);
    OneMore(ms, IsReplacement);
    OneMore(ms, IsTrade);
    OneMore(ms, IsTradingAction);
  }

  lemma FaultsOneMore(ms: seq<Message>, t: World)
    requires ms != [] && FaultsCounted(ms[..|ms| - 1], Last(ms).0.stats) && Tallied(Last(ms).0, Last(ms).1, t)
    ensures FaultsCounted(ms, t.stats)
  {
    hide Those, RunAll, Crosses, CrossesWhileTrading, IsUnknown, IsDuplicate, TakesTooMuch;
    OneMore(ms, IsUnknown);
    OneMore(ms, IsDuplicate);
    OneMore(ms, TakesTooMuch);
    OneMore(ms, Crosses);
    OneMore(ms, CrossesWhileTrading);
  }

  lemma PlacesOneMore(ms: seq<Message>, t: World)
    requires ms != [] && PlacesCounted(ms[..|ms| - 1], Last(ms).0) && Sized(t) && Placed(Last(ms).0, Last(ms).1, t)
    ensures PlacesCounted(ms, t)
  {
    hide Those, RunAll, TouchesAt, JoinsAt, CrossesAt;
    forall b: nat | b < 6 ensures t.stats.depthHistogram[b] == |Those(ms, TouchesIn(b))| + |Those(ms, JoinsIn(b))| {
      OneMore(ms, TouchesIn(b));
      OneMore(ms, JoinsIn(b));
    }
    forall l: nat | l < MAX_LOCATES ensures t.crossedBy[l] == |Those(ms, CrossesBook(l))| {
      OneMore(ms, CrossesBook(l));
    }
  }

  // ---- The latest setting ----

  /** What message `i` of the run sets. */
  ghost function SetBy<T>(ms: seq<Message>, sets: (World, Message) -> Option<T>, i: nat): Option<T>
    requires i < |ms|
  {
    sets(RunAll(Empty(), ms[..i]), ms[i])
  }

  /** `now` was set by some message and by none after it, or it is still the first value and nothing set it. */
  ghost predicate IsLatest<T>(ms: seq<Message>, sets: (World, Message) -> Option<T>, first: T, now: T) {
    || (now == first && forall i: nat | i < |ms| :: SetBy(ms, sets, i) == None)
    || exists i: nat | i < |ms| :: SetBy(ms, sets, i) == Some(now)
         && forall j: nat | i < j < |ms| :: SetBy(ms, sets, j) == None
  }

  lemma LatestOneMore<T>(ms: seq<Message>, sets: (World, Message) -> Option<T>, first: T, was: T, now: T)
    requires ms != [] && IsLatest(ms[..|ms| - 1], sets, first, was)
    requires now == Else(sets(Last(ms).0, Last(ms).1), was)
    ensures IsLatest(ms, sets, first, now)
  {
    hide RunAll, Empty;
    var n := |ms| - 1;
    forall i: nat | i < n ensures SetBy(ms[..n], sets, i) == SetBy(ms, sets, i) {
      assert ms[..n][..i] == ms[..i];
    }
    assert SetBy(ms, sets, n) == sets(Last(ms).0, Last(ms).1);
  }

  ghost function Prices(l: nat): (World, Message) -> Option<u32> {
    (w: World, m: Message) => PriceOf(w, m, l)
  }

  ghost function States(l: nat): (World, Message) -> Option<(char, nat)> {
    (w: World, m: Message) => StateOf(m, l)
  }

  ghost function Markets(): (World, Message) -> Option<bool> {
    (w: World, m: Message) => MarketBy(m)
  }

  /** Market hours, and each instrument's last price, trading state and time of the last trading action. */
  ghost predicate SettingsAreLatest(ms: seq<Message>, w: World) {
    && Sized(w)
    && IsLatest(ms, Markets(), false, w.market)
    && (forall l: nat | l < MAX_LOCATES :: IsLatest(ms, Prices(l), 0, w.lastPrice[l]))
    && (forall l: nat | l < MAX_LOCATES :: IsLatest(ms, States(l), ('T', 0), (w.trading[l], w.lastAction[l])))
  }

  lemma NothingSet()
    ensures SettingsAreLatest([], Empty())
  {
  }

  lemma SettingsOneMore(ms: seq<Message>, t: World)
    requires ms != [] && SettingsAreLatest(ms[..|ms| - 1], Last(ms).0)
    requires Sized(t) && Followed(Last(ms).0, Last(ms).1, t)
    ensures SettingsAreLatest(ms, t)
  {
    hide IsLatest, RunAll, PriceOf, CallBy, EventBy, StateOf, MarketBy;
    var (w, m) := Last(ms);
    LatestOneMore(ms, Markets(), false, w.market, t.market);
    forall l: nat | l < MAX_LOCATES ensures IsLatest(ms, Prices(l), 0, t.lastPrice[l]) {
      LatestOneMore(ms, Prices(l), 0, w.lastPrice[l], t.lastPrice[l]);
    }
    forall l: nat | l < MAX_LOCATES ensures IsLatest(ms, States(l), ('T', 0), (t.trading[l], t.lastAction[l])) {
      LatestOneMore(ms, States(l), ('T', 0), (w.trading[l], w.lastAction[l]), (t.trading[l], t.lastAction[l]));
    }
  }

  // ---- What was told and kept ----

  /** What the messages of a run bring, in order. */
  ghost function Gathered<T>(ms: seq<Message>, brings: (World, Message) -> Option<T>): seq<T> {
    if ms == [] then [] else AndThen(Gathered(ms[..|ms| - 1], brings), brings(Last(ms).0, Last(ms).1))
  }

  /** Every call, with its message's own time; and the first hundred books left crossed while trading. */
  ghost predicate KeptInOrder(ms: seq<Message>, w: World) {
    var events := Gathered(ms, EventBy);
    && w.calls == Gathered(ms, CallBy)
    && w.crossedEvents == if |events| < KEPT_EVENTS then events else events[..KEPT_EVENTS]
  }

  lemma KeptOneMore(ms: seq<Message>, t: World)
    requires ms != [] && KeptInOrder(ms[..|ms| - 1], Last(ms).0) && Sized(Last(ms).0)
    requires Sized(t) && Followed(Last(ms).0, Last(ms).1, t)
    ensures KeptInOrder(ms, t)
  {
    hide RunAll, CallBy, EventBy, PriceOf, StateOf, MarketBy;
  }

  // ---- The peak ----

  /** The most orders that were ever live at once. */
  ghost predicate IsPeak(ms: seq<Message>, peak: int) {
    && (forall i: nat | i <= |ms| :: LiveAfter(ms, i) <= peak)
    && exists i: nat | i <= |ms| :: LiveAfter(ms, i) == peak
  }

  ghost function LiveAfter(ms: seq<Message>, i: nat): nat
    requires i <= |ms|
  {
    Size(RunAll(Empty(), ms[..i]).lists)
  }

  lemma PeakGrows(ms: seq<Message>, was: int, now: int)
    requires ms != [] && IsPeak(ms[..|ms| - 1], was)
    requires was <= now && LiveAfter(ms, |ms|) <= now && (now == was || now == LiveAfter(ms, |ms|))
    ensures IsPeak(ms, now)
  {
    hide LiveAfter;
    var n := |ms| - 1;
    forall i: nat | i <= n ensures LiveAfter(ms[..n], i) == LiveAfter(ms, i) {
      LiveBefore(ms, i);
    }
  }

  lemma LiveBefore(ms: seq<Message>, i: nat)
    requires i < |ms|
    ensures LiveAfter(ms[..|ms| - 1], i) == LiveAfter(ms, i)
  {
    hide RunAll, Empty, Size;
    assert ms[..|ms| - 1][..i] == ms[..i];
  }

  lemma PeakOneMore(ms: seq<Message>, t: World)
    requires ms != [] && IsPeak(ms[..|ms| - 1], Last(ms).0.stats.peakLiveOrders) && t == RunAll(Empty(), ms)
    requires LiveCounted(t) && Tallied(Last(ms).0, Last(ms).1, t)
    ensures IsPeak(ms, t.stats.peakLiveOrders)
  {
    hide RunAll, Empty, Size, IsPeak, Last, Crosses, CrossesWhileTrading, IsUnknown, IsDuplicate, TakesTooMuch;
    LiveAtTheEnd(ms);
    PeakGrows(ms, Last(ms).0.stats.peakLiveOrders, t.stats.peakLiveOrders);
  }

  lemma LiveAtTheEnd(ms: seq<Message>)
    ensures LiveAfter(ms, |ms|) == Size(RunAll(Empty(), ms).lists)
  {
    hide RunAll, Empty, Size;
    assert ms[..|ms|] == ms;
  }

  // ---- Every run ----

  /** Everything the builder keeps besides its books is what the messages of the run, each in its own state, make it. */
  ghost predicate RunIsExact(ms: seq<Message>, w: World) {
    && KindsCounted(ms, w.stats) && FaultsCounted(ms, w.stats) && PlacesCounted(ms, w)
    && SettingsAreLatest(ms, w) && KeptInOrder(ms, w) && IsPeak(ms, w.stats.peakLiveOrders)
  }

  lemma NothingRun()
    ensures RunIsExact([], Empty())
  {
    hide KindsCounted, FaultsCounted, PlacesCounted, SettingsAreLatest, KeptInOrder, IsPeak, Empty;
    NoneCounted();
    NothingSet();
    NothingKept();
    NoPeak();
  }

  lemma NothingKept()
    ensures KeptInOrder([], Empty())
  {
  }

  lemma NoPeak()
    ensures IsPeak([], Empty().stats.peakLiveOrders)
  {
    hide Size, Empty;
    EmptyIsSmall();
    assert LiveAfter([], 0) == 0;
  }

  lemma {:induction false} RunsAreExact(ms: seq<Message>)
    ensures RunIsExact(ms, RunAll(Empty(), ms))
  {
    hide Handle, Empty, KindsCounted, FaultsCounted, PlacesCounted, SettingsAreLatest, KeptInOrder, IsPeak,
      Tallied, Placed, Followed, Informed, LiveCounted, Unique, Size, Last;
    if ms == [] {
      NothingRun();
    } else {
      var n := |ms| - 1;
      RunsAreExact(ms[..n]);
      EmptyCounts();
      RunTotals(Empty(), ms[..n]);
      RunTotals(Empty(), ms);
      LastIs(ms);
      var t := RunAll(Empty(), ms);
      StepTallied(Last(ms).0, Last(ms).1);
      StepFollowed(Last(ms).0, Last(ms).1);
      KindsOneMore(ms, t);
      FaultsOneMore(ms, t);
      PlacesOneMore(ms, t);
      SettingsOneMore(ms, t);
      KeptOneMore(ms, t);
      PeakOneMore(ms, t);
    }
  }

  lemma LastIs(ms: seq<Message>)
    requires ms != []
    ensures Last(ms).0 == RunAll(Empty(), ms[..|ms| - 1]) && Last(ms).1 == ms[|ms| - 1]
    ensures Sized(Last(ms).0) && RunAll(Empty(), ms) == Handle(Last(ms).0, Last(ms).1)
  {
    hide Handle, Empty;
  }

  /** A message about an order that is not live is counted, whatever else it says; and no other message is. */
  lemma UnknownReferences(ms: seq<Message>)
    ensures RunAll(Empty(), ms).stats.unknownRefs ==
      |set i | 0 <= i < |ms| && Names(ms[i]) && !IsLive(RunAll(Empty(), ms[..i]).lists, Named(ms[i]))|
  {
    hide RunAll, Empty, Those, IsLive, KindsCounted, PlacesCounted, SettingsAreLatest, KeptInOrder, IsPeak;
    RunsAreExact(ms);
    UnknownOnes(ms);
  }

  lemma UnknownOnes(ms: seq<Message>)
    ensures Those(ms, IsUnknown) ==
      set i | 0 <= i < |ms| && Names(ms[i]) && !IsLive(RunAll(Empty(), ms[..i]).lists, Named(ms[i]))
  {
    hide RunAll, Empty, IsLive, Names, Named;
  }
}
