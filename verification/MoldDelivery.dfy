/** What the Sequencer promises over every run: order, agreement with the stream, exact accounting, progress. */
module MoldDelivery {
  import opened Basics
  import opened BigEndian
  import opened MoldCodec
  import opened MoldSequencer

  /** The sender's numbered messages: the ground truth every feed repeats. */
  type Stream = nat -> Message

  predicate Carries(spans: seq<Span>, n: nat) {
    exists i | 0 <= i < |spans| :: spans[i].Covers(n)
  }

  /** Every span repeats the stream. */
  ghost predicate Agrees(spans: seq<Span>, stream: Stream) {
    forall i, k | 0 <= i < |spans| && 0 <= k < |spans[i].messages| ::
      spans[i].messages[k] == stream(spans[i].sequence + k)
  }

  function Total(spans: seq<Span>): nat {
    if spans == [] then 0 else |spans[0].messages| + Total(spans[1..])
  }

  predicate Delivered(s: State, n: nat) {
    exists i | 0 <= i < |s.log| :: s.log[i].number == n
  }

  // ---- Invariants ----

  ghost predicate LogOk(s: State, first: nat, history: seq<Span>, stream: Stream) {
    && (forall i | 0 <= i < |s.log| ::
          && first <= s.log[i].number < s.next
          && Carries(history, s.log[i].number)
          && s.log[i].message == stream(s.log[i].number))
    && (forall i, j | 0 <= i < j < |s.log| :: s.log[i].number < s.log[j].number)
  }

  /** Everything but the order of the held list; `waiting` is what was accepted and not yet looked at. */
  ghost predicate Core(s: State, first: nat, history: seq<Span>, stream: Stream, waiting: seq<Span>) {
    && Agrees(history, stream)
    && LogOk(s, first, history, stream)
    && s.next == first + s.stats.delivered + s.stats.lost
    && s.stats.delivered == |s.log|
    && Total(history) == s.stats.delivered + s.stats.duplicates + Total(waiting)
    && s.next <= Max(first, s.known)
    && (forall i | 0 <= i < |waiting| :: waiting[i] in history && waiting[i].End() <= s.known)
    && (forall n: nat | Carries(history, n) :: n < s.next || Carries(waiting, n))
  }

  predicate Before(a: Span, b: Span) {
    a.sequence < b.sequence || (a.sequence == b.sequence && |a.messages| > |b.messages|)
  }

  /** Sequence ascending, count strictly descending among equals, and nothing empty. */
  predicate HeldSorted(held: seq<Span>) {
    && (forall i, j | 0 <= i < j < |held| :: Before(held[i], held[j]))
    && (forall i | 0 <= i < |held| :: held[i].messages != [])
  }

  /** Every held span lies beyond the oldest gap. */
  predicate HeldBeyond(s: State) {
    forall i | 0 <= i < |s.held| :: s.next < s.held[i].sequence
  }

  ghost predicate Inv(s: State, first: nat, history: seq<Span>, stream: Stream) {
    && Core(s, first, history, stream, s.held)
    && HeldSorted(s.held)
    && HeldBeyond(s)
    && |s.held| <= s.maxHeld
    && (s.endOfSession && !s.GapOpen() ==> s.ended)
  }

  /** From `s` to `t`, exactly the numbers from s.next up to t.next were delivered, in order. */
  predicate Continues(s: State, t: State) {
    && s.next <= t.next
    && |t.log| == |s.log| + (t.next - s.next)
    && s.log <= t.log
    && (forall i | |s.log| <= i < |t.log| :: t.log[i].number == s.next + (i - |s.log|))
    && t.known == s.known && t.stats.lost == s.stats.lost
  }

  // ---- Each part of a step ----

  lemma {:induction false} TotalConcat(a: seq<Span>, b: seq<Span>)
    ensures Total(a + b) == Total(a) + Total(b)
  {
    if a == [] {
      assert a + b == b;
    } else {
      assert (a + b)[1..] == a[1..] + b;
      TotalConcat(a[1..], b);
    }
  }

  lemma CarriesConcat(a: seq<Span>, b: seq<Span>, n: nat)
    ensures Carries(a + b, n) <==> Carries(a, n) || Carries(b, n)
  {
    if i :| 0 <= i < |a| && a[i].Covers(n) {
      assert (a + b)[i].Covers(n);
    }
    if i :| 0 <= i < |b| && b[i].Covers(n) {
      assert (a + b)[|a| + i].Covers(n);
    }
    if i :| 0 <= i < |a + b| && (a + b)[i].Covers(n) {
      assert if i < |a| then a[i].Covers(n) else b[i - |a|].Covers(n);
    }
  }

  lemma DeliverContinues(s: State, span: Span)
    requires span.sequence <= s.next
    ensures Continues(s, Deliver(s, span))
    ensures Deliver(s, span).next == Max(s.next, span.End())
    ensures Deliver(s, span).held == s.held && Deliver(s, span).maxHeld == s.maxHeld
  {
  }

  lemma ContinuesTrans(s: State, t: State, u: State)
    requires Continues(s, t) && Continues(t, u)
    ensures Continues(s, u)
  {
    forall i | |s.log| <= i < |u.log| ensures u.log[i].number == s.next + (i - |s.log|) {
      if i < |t.log| {
        assert u.log[i] == t.log[i];
      }
    }
  }

  lemma {:induction false} DrainContinues(s: State)
    ensures Continues(s, Drain(s))
    decreases |s.held|
  {
    if s.held != [] && s.held[0].sequence <= s.next {
      var s1 := s.(held := s.held[1..]);
      DeliverContinues(s1, s.held[0]);
      DrainContinues(Deliver(s1, s.held[0]));
      ContinuesTrans(s1, Deliver(s1, s.held[0]), Drain(s));
    }
  }

  /** Draining keeps the order, leaves only what lies beyond a gap, and takes the front if it can. */
  lemma {:induction false} DrainHeldBeyond(s: State)
    requires HeldSorted(s.held)
    ensures var t := Drain(s);
      && HeldSorted(t.held) && HeldBeyond(t)
      && |t.held| <= |s.held|
      && (s.held != [] && s.held[0].sequence <= s.next ==> |t.held| < |s.held|)
      && t.maxHeld == s.maxHeld && t.session == s.session && t.endOfSession == s.endOfSession
    decreases |s.held|
  {
    if s.held != [] {
      if s.held[0].sequence <= s.next {
        DrainHeldBeyond(Deliver(s.(held := s.held[1..]), s.held[0]));
      } else {
        assert forall i | 0 < i < |s.held| :: Before(s.held[0], s.held[i]);
      }
    }
  }

  lemma DeliverCore(s: State, first: nat, history: seq<Span>, stream: Stream, a: seq<Span>, span: Span, b: seq<Span>)
    requires Core(s, first, history, stream, a + [span] + b)
    requires span.sequence <= s.next
    ensures Core(Deliver(s, span), first, history, stream, a + b)
  {
    var t := Deliver(s, span);
    var waiting := a + [span] + b;
    assert waiting[|a|] == span;
    DeliverLogOk(s, first, history, stream, span);
    DeliverContinues(s, span);
    TotalConcat(a + [span], b);
    TotalConcat(a, [span]);
    TotalConcat(a, b);
    forall i | 0 <= i < |a + b| ensures (a + b)[i] in history && (a + b)[i].End() <= t.known {
      assert (a + b)[i] == if i < |a| then waiting[i] else waiting[i + 1];
    }
    forall n: nat | Carries(history, n) ensures n < t.next || Carries(a + b, n) {
      CarriesConcat(a + [span], b, n);
      CarriesConcat(a, [span], n);
      CarriesConcat(a, b, n);
    }
  }

  lemma DeliverLogOk(s: State, first: nat, history: seq<Span>, stream: Stream, span: Span)
    requires LogOk(s, first, history, stream) && Agrees(history, stream)
    requires first <= s.next && span in history && span.sequence <= s.next
    ensures LogOk(Deliver(s, span), first, history, stream)
  {
    hide Carries, Deliver;
    var t := Deliver(s, span);
    DeliverContinues(s, span);
    var h :| 0 <= h < |history| && history[h] == span;
    forall i | |s.log| <= i < |t.log|
      ensures first <= t.log[i].number < t.next && Carries(history, t.log[i].number)
      ensures t.log[i].message == stream(t.log[i].number)
    {
      DeliverEntry(s, span, i);
      CarriesAt(history, h, t.log[i].number);
    }
    assert forall i | 0 <= i < |s.log| :: t.log[i] == s.log[i];
  }

  lemma DeliverEntry(s: State, span: Span, i: nat)
    requires span.sequence <= s.next && |s.log| <= i < |Deliver(s, span).log|
    ensures var d := Deliver(s, span).log[i];
      span.Covers(d.number) && d.message == span.messages[d.number - span.sequence]
  {
    var j := Passed(s.next, span) + (i - |s.log|);
    assert Deliver(s, span).log[i] == Delivery(s.next + (i - |s.log|), span.messages[j]);
  }

  lemma CarriesAt(spans: seq<Span>, i: nat, n: nat)
    requires i < |spans| && spans[i].Covers(n)
    ensures Carries(spans, n)
  {
  }

  lemma {:induction false} DrainCore(s: State, first: nat, history: seq<Span>, stream: Stream, extra: seq<Span>)
    requires Core(s, first, history, stream, extra + s.held)
    ensures Core(Drain(s), first, history, stream, extra + Drain(s).held)
    decreases |s.held|
  {
    if s.held != [] && s.held[0].sequence <= s.next {
      var s1 := s.(held := s.held[1..]);
      assert extra + s.held == extra + [s.held[0]] + s1.held;
      DeliverCore(s1, first, history, stream, extra, s.held[0], s1.held);
      DrainCore(Deliver(s1, s.held[0]), first, history, stream, extra);
    }
  }

  lemma SkipCore(s: State, first: nat, history: seq<Span>, stream: Stream, extra: seq<Span>)
    requires Core(s, first, history, stream, extra + s.held)
    ensures Core(Skip(s), first, history, stream, extra + s.held)
  {
    if s.held != [] {
      assert (extra + s.held)[|extra|] == s.held[0];
    }
  }

  lemma GiveUpCore(s: State, first: nat, history: seq<Span>, stream: Stream, extra: seq<Span>)
    requires Core(s, first, history, stream, extra + s.held)
    requires HeldSorted(s.held) && HeldBeyond(s)
    ensures var t := GiveUp(s);
      && Core(t, first, history, stream, extra + t.held)
      && HeldSorted(t.held) && HeldBeyond(t)
      && (if s.held == [] then t.held == [] else |t.held| < |s.held|)
      && t.maxHeld == s.maxHeld && t.session == s.session && t.known == s.known
      && t.endOfSession == s.endOfSession && (t.endOfSession && !t.GapOpen() ==> t.ended)
  {
    hide Core, Drain, HeldSorted, Continues;
    SkipCore(s, first, history, stream, extra);
    DrainCore(Skip(s), first, history, stream, extra);
    DrainHeldBeyond(Skip(s));
    DrainContinues(Skip(s));
    FinishCore(Drain(Skip(s)), first, history, stream, extra + Drain(Skip(s)).held);
  }

  lemma FinishCore(s: State, first: nat, history: seq<Span>, stream: Stream, waiting: seq<Span>)
    requires Core(s, first, history, stream, waiting)
    ensures Core(Finish(s), first, history, stream, waiting)
  {
  }

  lemma HoldSorted(held: seq<Span>, span: Span)
    requires HeldSorted(held) && span.messages != [] && !Redundant(held, span)
    ensures var at := Position(held, span.sequence); HeldSorted(held[..at] + [span] + held[at..])
  {
    var at := Position(held, span.sequence);
    forall j | at <= j < |held| ensures Before(span, held[j]) {
      assert j > at ==> Before(held[at], held[j]);
    }
    InsertSorted(held, span, at);
  }

  lemma InsertSorted(held: seq<Span>, span: Span, at: nat)
    requires HeldSorted(held) && span.messages != [] && at <= |held|
    requires forall i | 0 <= i < at :: Before(held[i], span)
    requires forall j | at <= j < |held| :: Before(span, held[j])
    ensures HeldSorted(held[..at] + [span] + held[at..])
  {
    hide Before;
    var now := held[..at] + [span] + held[at..];
    forall i, j | 0 <= i < j < |now| ensures Before(now[i], now[j]) {
      assert now[i] == if i < at then held[i] else if i == at then span else held[i - 1];
      assert now[j] == if j < at then held[j] else if j == at then span else held[j - 1];
    }
  }

  // ---- A packet keeps the invariant ----

  lemma NoteCore(s: State, first: nat, history: seq<Span>, stream: Stream, a: Arrival)
    requires Core(s, first, history, stream, s.held)
    requires Agrees(history + [a.span], stream)
    ensures Core(Note(s, a), first, history + [a.span], stream, [a.span] + s.held)
  {
    var t, now, waiting := Note(s, a), history + [a.span], [a.span] + s.held;
    TotalConcat(history, [a.span]);
    TotalConcat([a.span], s.held);
    forall n: nat
      ensures Carries(history, n) ==> Carries(now, n)
      ensures Carries(now, n) ==> n < t.next || Carries(waiting, n)
    {
      CarriesConcat(history, [a.span], n);
      CarriesConcat([a.span], s.held, n);
    }
    assert now[|history|] == a.span;
    forall i | 0 <= i < |waiting| ensures waiting[i] in now && waiting[i].End() <= t.known {
      if i > 0 {
        assert waiting[i] == s.held[i - 1];
      }
    }
  }

  lemma AcceptInv(s: State, first: nat, history: seq<Span>, stream: Stream, span: Span)
    requires Core(s, first, history, stream, [span] + s.held)
    requires HeldSorted(s.held) && |s.held| <= s.maxHeld
    requires span.sequence <= s.next
    ensures Inv(Accept(s, span), first, history, stream)
  {
    hide Core, Drain, Deliver, HeldSorted;
    var t := Deliver(s, span);
    assert [span] + s.held == [] + [span] + s.held && [] + s.held == s.held && [] + Drain(t).held == Drain(t).held;
    DeliverContinues(s, span);
    DeliverCore(s, first, history, stream, [], span, s.held);
    DrainCore(t, first, history, stream, []);
    DrainHeldBeyond(t);
    FinishCore(Drain(t), first, history, stream, Drain(t).held);
  }

  /** A span dropped as redundant is covered, number for number, by the held copy. */
  lemma RedundantCore(s: State, first: nat, history: seq<Span>, stream: Stream, span: Span)
    requires Core(s, first, history, stream, [span] + s.held)
    requires Redundant(s.held, span)
    ensures Core(Hold(s, span), first, history, stream, s.held)
  {
    var at, waiting := Position(s.held, span.sequence), [span] + s.held;
    TotalConcat([span], s.held);
    assert forall i | 0 <= i < |s.held| :: s.held[i] == waiting[i + 1];
    forall n: nat | Carries(history, n) ensures n < s.next || Carries(s.held, n) {
      CarriesConcat([span], s.held, n);
      if span.Covers(n) {
        assert s.held[at].Covers(n);
      }
    }
  }

  lemma InsertCore(s: State, first: nat, history: seq<Span>, stream: Stream, span: Span)
    requires Core(s, first, history, stream, [span] + s.held)
    requires !Redundant(s.held, span)
    ensures Core(Hold(s, span), first, history, stream, Hold(s, span).held)
  {
    var at, t, waiting := Position(s.held, span.sequence), Hold(s, span), [span] + s.held;
    var l, r := s.held[..at], s.held[at..];
    assert s.held == l + r && t.held == l + [span] + r;
    TotalConcat([span], s.held);
    TotalConcat(l, r);
    TotalConcat(l + [span], r);
    TotalConcat(l, [span]);
    forall i | 0 <= i < |t.held| ensures t.held[i] in history && t.held[i].End() <= t.known {
      assert t.held[i] == waiting[if i < at then i + 1 else if i == at then 0 else i];
    }
    forall n: nat | Carries(history, n) ensures n < t.next || Carries(t.held, n) {
      CarriesConcat([span], s.held, n);
      CarriesConcat(l, r, n);
      CarriesConcat(l + [span], r, n);
      CarriesConcat(l, [span], n);
    }
  }

  lemma HoldBeyond(s: State, span: Span)
    requires HeldBeyond(s) && s.next < span.sequence
    ensures var t := Hold(s, span);
      HeldBeyond(t) && |t.held| <= |s.held| + 1 && t == s.(held := t.held, stats := t.stats)
  {
    hide Position, Redundant;
  }

  lemma HoldInv(s: State, first: nat, history: seq<Span>, stream: Stream, span: Span)
    requires Core(s, first, history, stream, [span] + s.held)
    requires HeldSorted(s.held) && HeldBeyond(s) && |s.held| < s.maxHeld
    requires s.next < span.sequence && span.messages != []
    ensures Inv(Hold(s, span), first, history, stream)
  {
    assert s.GapOpen() by {
      assert ([span] + s.held)[0].End() <= s.known;
    }
    hide Core, HeldSorted, HeldBeyond, Redundant, Position;
    HoldBeyond(s, span);
    if Redundant(s.held, span) {
      RedundantCore(s, first, history, stream, span);
    } else {
      InsertCore(s, first, history, stream, span);
      HoldSorted(s.held, span);
    }
  }

  lemma ArriveInv(s: State, first: nat, history: seq<Span>, stream: Stream, a: Arrival)
    requires Inv(s, first, history, stream) && InSession(s, a)
    requires Agrees(history + [a.span], stream)
    ensures Inv(Arrive(s, a), first, history + [a.span], stream)
  {
    hide Core, HeldSorted, GiveUp, Accept, Hold;
    var now, s1, span := history + [a.span], Note(s, a), a.span;
    NoteCore(s, first, history, stream, a);
    if span.messages == [] {
      NothingWaiting(s1, first, now, stream, span);
      FinishCore(s1, first, now, stream, s.held);
    } else if span.sequence <= s1.next {
      AcceptInv(s1, first, now, stream, span);
    } else if |s1.held| < s1.maxHeld {
      HoldInv(s1, first, now, stream, span);
    } else {
      GiveUpCore(s1, first, now, stream, [span]);
      GiveUpAll(s1);
      var s2 := GiveUp(s1);
      if span.sequence <= s2.next {
        AcceptInv(s2, first, now, stream, span);
      } else {
        HoldInv(s2, first, now, stream, span);
      }
    }
  }

  /** With nothing held, giving up reaches the known number. */
  lemma GiveUpAll(s: State)
    ensures s.held == [] ==> GiveUp(s).next >= s.known
  {
    DrainContinues(Skip(s));
  }

  /** A span with no messages leaves nothing to wait for. */
  lemma NothingWaiting(s: State, first: nat, history: seq<Span>, stream: Stream, span: Span)
    requires Core(s, first, history, stream, [span] + s.held) && span.messages == []
    ensures Core(s, first, history, stream, s.held)
  {
    TotalConcat([span], s.held);
    assert forall i | 0 <= i < |s.held| :: s.held[i] == ([span] + s.held)[i + 1];
    forall n: nat | Carries(history, n) ensures n < s.next || Carries(s.held, n) {
      CarriesConcat([span], s.held, n);
    }
  }

  // ---- Runs ----

  datatype Event = Receive(a: Arrival) | GiveUpGap

  function Step(s: State, e: Event): State {
    match e
    case Receive(a) => Arrive(s, a)
    case GiveUpGap => GiveUp(s)
  }

  function After(first: nat, maxHeld: nat, es: seq<Event>): State {
    if es == [] then Initial(first, maxHeld) else Step(After(first, maxHeld, es[..|es| - 1]), es[|es| - 1])
  }

  /** Whose session it is: that of the first packet received. */
  function SessionOf(es: seq<Event>): Option<seq<byte>> {
    if es == [] then None
    else
      var before := SessionOf(es[..|es| - 1]);
      if before == None && es[|es| - 1].Receive? then Some(es[|es| - 1].a.session) else before
  }

  /** What the packets of that session carried. */
  function History(es: seq<Event>): seq<Span> {
    if es == [] then []
    else
      var before, e := es[..|es| - 1], es[|es| - 1];
      History(before) + if e.Receive? && SessionOf(es) == Some(e.a.session) then [e.a.span] else []
  }

  lemma AgreesPrefix(a: seq<Span>, b: seq<Span>, stream: Stream)
    requires Agrees(a + b, stream)
    ensures Agrees(a, stream)
  {
    assert forall i | 0 <= i < |a| :: (a + b)[i] == a[i];
  }

  /** Every run keeps the invariant. */
  lemma {:induction false} RunInv(first: nat, maxHeld: nat, es: seq<Event>, stream: Stream)
    requires Agrees(History(es), stream)
    ensures var s := After(first, maxHeld, es);
      Inv(s, first, History(es), stream) && s.session == SessionOf(es) && s.maxHeld == maxHeld
  {
    hide Inv, Step;
    if es == [] {
      InitialInv(first, maxHeld, stream);
    } else {
      var before, e := es[..|es| - 1], es[|es| - 1];
      var s := After(first, maxHeld, before);
      AgreesPrefix(History(before), if e.Receive? && SessionOf(es) ==
          Some(e.a.session) then [e.a.span] else [], stream);
      RunInv(first, maxHeld, before, stream);
      StepFrame(s, e);
      HistoryStep(es, s);
      hide History, SessionOf, InSession;
      StepInv(s, first, History(before), stream, e);
    }
  }

  lemma InitialInv(first: nat, maxHeld: nat, stream: Stream)
    ensures Inv(Initial(first, maxHeld), first, [], stream)
  {
  }

  lemma HistoryStep(es: seq<Event>, s: State)
    requires es != [] && s.session == SessionOf(es[..|es| - 1])
    ensures var before, e := es[..|es| - 1], es[|es| - 1];
      && History(es) == (if e.Receive? && InSession(s, e.a) then History(before) + [e.a.span] else History(before))
      && SessionOf(es) == (if s.session == None && e.Receive? then Some(e.a.session) else s.session)
  {
    assert History(es[..|es| - 1]) + [] == History(es[..|es| - 1]);
  }

  lemma StepInv(s: State, first: nat, history: seq<Span>, stream: Stream, e: Event)
    requires Inv(s, first, history, stream)
    requires e.Receive? && InSession(s, e.a) ==> Agrees(history + [e.a.span], stream)
    ensures Inv(Step(s, e), first, if e.Receive? && InSession(s, e.a) then history + [e.a.span] else history, stream)
  {
    hide Inv, GiveUp;
    if e.GiveUpGap? {
      GiveUpInv(s, first, history, stream);
    } else if InSession(s, e.a) {
      ArriveInv(s, first, history, stream, e.a);
    } else {
      StrangerInv(s, first, history, stream, e.a);
    }
  }

  lemma StrangerInv(s: State, first: nat, history: seq<Span>, stream: Stream, a: Arrival)
    requires Inv(s, first, history, stream) && !InSession(s, a)
    ensures Inv(Arrive(s, a), first, history, stream)
  {
    hide Carries, Total, Agrees;
  }

  lemma GiveUpInv(s: State, first: nat, history: seq<Span>, stream: Stream)
    requires Inv(s, first, history, stream)
    ensures var t := GiveUp(s);
      && Inv(t, first, history, stream)
      && (if s.held == [] then t.held == [] else |t.held| < |s.held|)
  {
    hide Core, HeldSorted, HeldBeyond, GiveUp;
    assert [] + s.held == s.held && [] + GiveUp(s).held == GiveUp(s).held;
    GiveUpCore(s, first, history, stream, []);
  }

  /** What a step does to the fields that delivering leaves alone. */
  lemma StepFrame(s: State, e: Event)
    ensures var t := Step(s, e);
      && t.session == (if s.session == None && e.Receive? then Some(e.a.session) else s.session)
      && t.maxHeld == s.maxHeld
      && (if e.Receive? && InSession(s, e.a)
          then t.known == Max(s.known, e.a.span.End()) && t.endOfSession == (s.endOfSession || e.a.end)
          else t.known == s.known && t.endOfSession == s.endOfSession)
  {
    hide GiveUp, Accept, Hold;
    GiveUpFrame(s);
    if e.Receive? && InSession(s, e.a) {
      var s1 := Note(s, e.a);
      GiveUpFrame(s1);
      var s2 := MakeRoom(s1);
      HoldFrame(s2, e.a.span);
      if e.a.span.sequence <= s1.next {
        AcceptFrame(s1, e.a.span);
      }
      if e.a.span.sequence <= s2.next {
        AcceptFrame(s2, e.a.span);
      }
    }
  }

  predicate SameFrame(s: State, t: State) {
    t.session == s.session && t.maxHeld == s.maxHeld && t.known == s.known && t.endOfSession == s.endOfSession
  }

  lemma HoldFrame(s: State, span: Span)
    ensures SameFrame(s, Hold(s, span))
  {
  }

  lemma GiveUpFrame(s: State)
    ensures SameFrame(s, GiveUp(s))
  {
    DrainFrame(Skip(s));
  }

  lemma AcceptFrame(s: State, span: Span)
    requires span.sequence <= s.next
    ensures SameFrame(s, Accept(s, span))
  {
    DrainFrame(Deliver(s, span));
  }

  lemma {:induction false} DrainFrame(s: State)
    ensures SameFrame(s, Drain(s)) && Drain(s).ended == s.ended
    decreases |s.held|
  {
    if s.held != [] && s.held[0].sequence <= s.next {
      DrainFrame(Deliver(s.(held := s.held[1..]), s.held[0]));
    }
  }
}
