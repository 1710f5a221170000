/** What the Sequencer's statistics count over every run. */
module MoldCounts {
  import opened MoldCodec
  import opened MoldSequencer
  import opened MoldDelivery

  // ---- Steps of a kind ----

  predicate InTheSession(s: State, e: Event) {
    e.Receive? && InSession(s, e.a)
  }

  predicate OfAnotherSession(s: State, e: Event) {
    e.Receive? && s.session.Some? && s.session.value != e.a.session
  }

  predicate IsHeartbeat(s: State, e: Event) {
    InTheSession(s, e) && e.a.span.messages == [] && !e.a.end
  }

  /** A packet with messages that still lies beyond a gap when its call returns. */
  predicate StillWaits(s: State, e: Event) {
    InTheSession(s, e) && e.a.span.messages != [] && e.a.span.sequence > Step(s, e).next
  }

  predicate LosesSome(s: State, e: Event) {
    Step(s, e).stats.lost > s.stats.lost
  }

  /** The steps of a run that are of a kind in the state they find. */
  ghost function Steps(first: nat, maxHeld: nat, es: seq<Event>, kind: (State, Event) -> bool): set<nat> {
    set i: nat | i < |es| && kind(After(first, maxHeld, es[..i]), es[i])
  }

  lemma NoSteps(first: nat, maxHeld: nat, kind: (State, Event) -> bool)
    ensures Steps(first, maxHeld, [], kind) == {}
  {
  }

  lemma OneStepMore(first: nat, maxHeld: nat, es: seq<Event>, kind: (State, Event) -> bool)
    requires es != []
    ensures var n := |es| - 1;
      |Steps(first, maxHeld, es, kind)| ==
      |Steps(first, maxHeld, es[..n], kind)| + if kind(After(first, maxHeld, es[..n]), es[n]) then 1 else 0
  {
    hide After;
    var n := |es| - 1;
    forall i: nat | i < n ensures es[..n][..i] == es[..i] && es[..n][i] == es[i] {
    }
    assert Steps(first, maxHeld, es, kind) ==
        Steps(first, maxHeld, es[..n], kind) + if kind(After(first, maxHeld, es[..n]), es[n]) then {n} else {};
  }

  // ---- What one step counts ----

  /** Delivering and draining touch none of these, and never move back. */
  predicate Quiet(s: State, t: State) {
    && t.stats == s.stats.(duplicates := t.stats.duplicates, delivered := t.stats.delivered)
    && s.next <= t.next
  }

  lemma {:induction false} DrainIsQuiet(s: State)
    ensures Quiet(s, Drain(s))
    decreases |s.held|
  {
    hide Deliver;
    if s.held != [] && s.held[0].sequence <= s.next {
      var s1 := s.(held := s.held[1..]);
      DeliverIsQuiet(s1, s.held[0]);
      DrainIsQuiet(Deliver(s1, s.held[0]));
    }
  }

  lemma DeliverIsQuiet(s: State, span: Span)
    requires span.sequence <= s.next
    ensures Quiet(s, Deliver(s, span)) && Deliver(s, span).held == s.held
  {
  }

  lemma AcceptIsQuiet(s: State, span: Span)
    requires span.sequence <= s.next
    ensures Quiet(s, Accept(s, span))
  {
    hide Drain, Deliver;
    DeliverIsQuiet(s, span);
    DrainIsQuiet(Deliver(s, span));
  }

  /** One gap is counted exactly when numbers are lost. */
  lemma GiveUpCounts(s: State)
    ensures var t := GiveUp(s);
      && t.stats == s.stats.(duplicates := t.stats.duplicates, delivered := t.stats.delivered, lost := t.stats.lost,
                             gaps := s.stats.gaps + if t.stats.lost > s.stats.lost then 1 else 0)
      && s.next <= t.next && s.stats.lost <= t.stats.lost
  {
    hide Drain;
    DrainIsQuiet(Skip(s));
  }

  lemma SettleCounts(s: State, span: Span)
    ensures var t := Settle(s, span);
      && t.stats == s.stats.(duplicates := t.stats.duplicates, delivered := t.stats.delivered, lost := t.stats.lost,
                             gaps := s.stats.gaps + (if t.stats.lost > s.stats.lost then 1 else 0),
                             held := s.stats.held + if span.messages != [] && span.sequence > t.next then 1 else 0)
  {
    hide GiveUp, Accept, Position;
    if span.messages != [] {
      GiveUpCounts(s);
      var t := if span.sequence <= s.next then s else MakeRoom(s);
      if span.sequence <= t.next {
        AcceptIsQuiet(t, span);
      }
    }
  }

  lemma StepCounts(s: State, e: Event)
    ensures var t := Step(s, e);
      && t.stats.packets == s.stats.packets + (if InTheSession(s, e) then 1 else 0)
      && t.stats.otherSession == s.stats.otherSession + (if OfAnotherSession(s, e) then 1 else 0)
      && t.stats.heartbeats == s.stats.heartbeats + (if IsHeartbeat(s, e) then 1 else 0)
      && t.stats.held == s.stats.held + (if StillWaits(s, e) then 1 else 0)
      && t.stats.gaps == s.stats.gaps + (if LosesSome(s, e) then 1 else 0)
  {
    hide GiveUp, Settle;
    match e
    case GiveUpGap => GiveUpCounts(s);
    case Receive(a) =>
      if InSession(s, a) {
        SettleCounts(Note(s, a), a.span);
      }
  }

  /** Over every run, each statistic is the number of steps of its kind. */
  lemma {:induction false} RunCounts(first: nat, maxHeld: nat, es: seq<Event>)
    ensures var stats := After(first, maxHeld, es).stats;
      && stats.packets == |Steps(first, maxHeld, es, InTheSession)|
      && stats.otherSession == |Steps(first, maxHeld, es, OfAnotherSession)|
      && stats.heartbeats == |Steps(first, maxHeld, es, IsHeartbeat)|
      && stats.held == |Steps(first, maxHeld, es, StillWaits)|
      && stats.gaps == |Steps(first, maxHeld, es, LosesSome)|
  {
    hide Steps, Step, InTheSession, OfAnotherSession, IsHeartbeat, StillWaits, LosesSome;
    if es == [] {
      NoSteps(first, maxHeld, InTheSession);
      NoSteps(first, maxHeld, OfAnotherSession);
      NoSteps(first, maxHeld, IsHeartbeat);
      NoSteps(first, maxHeld, StillWaits);
      NoSteps(first, maxHeld, LosesSome);
    } else {
      var before, e := es[..|es| - 1], es[|es| - 1];
      RunCounts(first, maxHeld, before);
      StepCounts(After(first, maxHeld, before), e);
      OneStepMore(first, maxHeld, es, InTheSession);
      OneStepMore(first, maxHeld, es, OfAnotherSession);
      OneStepMore(first, maxHeld, es, IsHeartbeat);
      OneStepMore(first, maxHeld, es, StillWaits);
      OneStepMore(first, maxHeld, es, LosesSome);
    }
  }
}
