/** The guarantees of a Sequencer run, derived from the invariant: loss, arbitration and progress. */
module MoldGuarantees {
  import opened Basics
  import opened BigEndian
  import opened MoldCodec
  import opened MoldSequencer
  import opened MoldDelivery

  // ---- Every run: order, agreement and conservation ----

  /** Each message at most once, in order, and only what the feeds carried; every number is accounted for. */
  lemma DeliveredOnceInOrder(first: nat, maxHeld: nat, es: seq<Event>, stream: Stream)
    requires Agrees(History(es), stream)
    ensures var s := After(first, maxHeld, es);
      && (forall i, j | 0 <= i < j < |s.log| :: s.log[i].number < s.log[j].number)
      && (forall i | 0 <= i < |s.log| ::
            s.log[i].message == stream(s.log[i].number) && Carries(History(es), s.log[i].number))
      && s.next == first + |s.log| + s.stats.lost && |s.log| == s.stats.delivered
      && Total(History(es)) == s.stats.delivered + s.stats.duplicates + Total(s.held)
      && |s.held| <= maxHeld
      && (s.endOfSession && !s.GapOpen() ==> s.ended)
  {
    RunInv(first, maxHeld, es, stream);
  }

  function Between(lo: nat, hi: nat): (s: set<nat>)
    ensures |s| == if lo <= hi then hi - lo else 0
    ensures forall n :: n in s <==> lo <= n < hi
    decreases hi - lo
  {
    if hi <= lo then {} else Between(lo, hi - 1) + {hi - 1}
  }

  function Numbers(log: seq<Delivery>): (s: set<nat>)
    ensures forall n :: n in s <==> exists i | 0 <= i < |log| :: log[i].number == n
  {
    if log == [] then {}
    else
      var last := |log| - 1;
      assert forall i | 0 <= i < last :: log[..last][i] == log[i];
      Numbers(log[..last]) + {log[last].number}
  }

  lemma NoNumbers()
    ensures Numbers([]) == {}
  {
  }

  lemma NumbersStep(log: seq<Delivery>)
    requires log != []
    ensures Numbers(log) == Numbers(log[..|log| - 1]) + {log[|log| - 1].number}
  {
  }

  lemma {:induction false} NumbersCount(log: seq<Delivery>)
    requires forall i, j | 0 <= i < j < |log| :: log[i].number < log[j].number
    ensures |Numbers(log)| == |log|
  {
    hide Numbers;
    if log == [] {
      NoNumbers();
    } else {
      var last := |log| - 1;
      NumbersCount(log[..last]);
      forall i | 0 <= i < last ensures log[..last][i].number != log[last].number {
        assert log[i].number < log[last].number;
      }
      NumbersStep(log);
    }
  }

  /** `lost` is exactly how many numbers were passed over without being delivered. */
  lemma LossIsExact(first: nat, maxHeld: nat, es: seq<Event>, stream: Stream)
    requires Agrees(History(es), stream)
    ensures var s := After(first, maxHeld, es);
      |set n | n in Between(first, s.next) && !Delivered(s, n)| == s.stats.lost
  {
    RunInv(first, maxHeld, es, stream);
    var s := After(first, maxHeld, es);
    NumbersCount(s.log);
    assert Numbers(s.log) <= Between(first, s.next);
    assert (set n | n in Between(first, s.next) && !Delivered(s, n)) == Between(first, s.next) - Numbers(s.log);
  }

  // ---- What a step can lose ----

  /** A number passed over by the step from `s` to `t` and not delivered. */
  predicate Lost(s: State, t: State, n: nat) {
    s.next <= n < t.next && !Delivered(t, n)
  }

  /** A packet beyond the gap that finds the held list full. */
  predicate Overflows(s: State, a: Arrival) {
    InSession(s, a) && a.span.messages != [] && s.next < a.span.sequence && |s.held| >= s.maxHeld
  }

  /** Where the step starts delivering from: the next number, or beyond the gap it gives up. */
  function Origin(s: State, e: Event): State {
    match e
    case GiveUpGap => Skip(s)
    case Receive(a) =>
      if !InSession(s, a) then s
      else if Overflows(s, a) then Skip(Note(s, a))
      else Note(s, a)
  }

  lemma GiveUpContinues(s: State)
    ensures Continues(Skip(s), GiveUp(s))
  {
    DrainContinues(Skip(s));
  }

  lemma AcceptContinues(s: State, span: Span)
    requires span.sequence <= s.next
    ensures Continues(s, Accept(s, span))
  {
    hide Drain, Deliver;
    DeliverContinues(s, span);
    DrainContinues(Deliver(s, span));
    ContinuesTrans(s, Deliver(s, span), Drain(Deliver(s, span)));
  }

  lemma StepContinues(s: State, e: Event)
    ensures Continues(if e.Receive? && !InSession(s, e.a) then s else Origin(s, e), Step(s, e))
  {
    hide GiveUp, Accept, Skip;
    if e.GiveUpGap? {
      GiveUpContinues(s);
    } else if InSession(s, e.a) && e.a.span.messages != [] {
      var s1 := Note(s, e.a);
      var s2 := if s1.next < e.a.span.sequence then MakeRoom(s1) else s1;
      GiveUpContinues(s1);
      if e.a.span.sequence <= s2.next {
        AcceptContinues(s2, e.a.span);
      } else {
        HoldContinues(s2, e.a.span);
      }
      hide Continues, Hold;
      ContinuesTrans(Origin(s, e), s2, Step(s, e));
    }
  }

  lemma HoldContinues(s: State, span: Span)
    ensures Continues(s, Hold(s, span))
  {
  }

  /** Exactly the numbers skipped at the origin of the step are lost by it. */
  lemma LostIffSkipped(s: State, first: nat, history: seq<Span>, stream: Stream, e: Event, n: nat)
    requires Inv(s, first, history, stream)
    ensures Lost(s, Step(s, e), n) <==> s.next <= n < Origin(s, e).next
  {
    var u, t := Origin(s, e), Step(s, e);
    hide Step, Carries;
    StepContinues(s, e);
    assert u.log == s.log && s.next <= u.next;
    if u.next <= n < t.next {
      assert t.log[|u.log| + (n - u.next)].number == n;
    }
    if s.next <= n < u.next {
      forall i | 0 <= i < |t.log| ensures t.log[i].number != n {
        if i < |s.log| {
          assert t.log[i] == s.log[i];
        }
      }
    }
  }

  /** A number carried by a packet accepted in an earlier call is never counted lost. */
  lemma NoFalseLoss(s: State, first: nat, history: seq<Span>, stream: Stream, e: Event, n: nat)
    requires Inv(s, first, history, stream)
    requires Carries(history, n)
    ensures !Lost(s, Step(s, e), n)
  {
    LostIffSkipped(s, first, history, stream, e, n);
    if s.next <= n {
      var i :| 0 <= i < |s.held| && s.held[i].Covers(n);
      assert i > 0 ==> Before(s.held[0], s.held[i]);
    }
  }

  /**
   * A packet's own numbers are lost by its own call exactly when it overflows the held list and
   * starts before everything held (or nothing is held).
   */
  lemma OwnPacketLostIff(s: State, first: nat, history: seq<Span>, stream: Stream, a: Arrival)
    requires Inv(s, first, history, stream)
    ensures (exists n: nat :: a.span.Covers(n) && Lost(s, Arrive(s, a), n)) <==>
      Overflows(s, a) && (s.held == [] || a.span.sequence < s.held[0].sequence)
  {
    var e := Receive(a);
    forall n: nat | a.span.Covers(n) ensures Lost(s, Arrive(s, a), n) <==> s.next <= n < Origin(s, e).next {
      LostIffSkipped(s, first, history, stream, e, n);
    }
    if Overflows(s, a) && (s.held == [] || a.span.sequence < s.held[0].sequence) {
      assert a.span.Covers(a.span.sequence);
    }
  }

  /** The failing family is not empty: packet 5 is lost by its own arrival, though nothing dropped it. */
  lemma OwnPacketLostExample(session: seq<byte>, x: Message)
    ensures var es := [Receive(Arrival(session, Span(9, [x]), false))];
      var s := After(1, 1, es);
      Lost(s, Arrive(s, Arrival(session, Span(5, [x]), false)), 5)
  {
    var a := Arrival(session, Span(9, [x]), false);
    var b := Arrival(session, Span(5, [x]), false);
    var es := [Receive(a)];
    assert es[..0] == [] && After(1, 1, es) == Arrive(Initial(1, 1), a);
    assert History([Receive(a)][..0]) == [];
    var stream: Stream := n => x;
    HistoryStep(es, Initial(1, 1));
    assert History(es) == [a.span];
    RunInv(1, 1, es, stream);
    var s := After(1, 1, es);
    assert s == Hold(Note(Initial(1, 1), a), a.span);
    assert s.held == [a.span];
    LostIffSkipped(s, 1, History(es), stream, Receive(b), 5);
  }

  /** What earlier steps delivered stays delivered. */
  lemma DeliveredStays(s: State, e: Event, n: nat)
    requires Delivered(s, n)
    ensures Delivered(Step(s, e), n)
  {
    hide Step;
    StepContinues(s, e);
    var i :| 0 <= i < |s.log| && s.log[i].number == n;
    assert Step(s, e).log[i] == s.log[i];
  }

  /** Once accepted and not yet passed, a number is delivered by whatever happens next, or still to come. */
  lemma {:induction false} AcceptedIsNeverLost(first: nat, maxHeld: nat, es: seq<Event>, more: seq<Event>,
      stream: Stream, n: nat)
    requires Agrees(History(es + more), stream)
    requires Carries(History(es), n) && After(first, maxHeld, es).next <= n
    ensures var t := After(first, maxHeld, es + more); n < t.next ==> Delivered(t, n)
    decreases |more|
  {
    hide Inv, Step, Carries, Agrees, History, Delivered;
    if more == [] {
      assert es + more == es;
    } else {
      var all, e := es + more, more[|more| - 1];
      var before := es + more[..|more| - 1];
      assert all[..|all| - 1] == before && all[|all| - 1] == e;
      HistoryGrows(before, [e]);
      assert before + [e] == all;
      HistoryGrows(es, more[..|more| - 1]);
      assert History(all) == History(before) + History(all)[|History(before)|..];
      AgreesPrefix(History(before), History(all)[|History(before)|..], stream);
      AcceptedIsNeverLost(first, maxHeld, es, more[..|more| - 1], stream, n);
      RunInv(first, maxHeld, before, stream);
      var s := After(first, maxHeld, before);
      assert History(before) == History(es) + History(before)[|History(es)|..];
      CarriesConcat(History(es), History(before)[|History(es)|..], n);
      NoFalseLoss(s, first, History(before), stream, e, n);
      if n < s.next {
        DeliveredStays(s, e, n);
      }
    }
  }

  lemma {:induction false} HistoryGrows(es: seq<Event>, more: seq<Event>)
    ensures History(es) <= History(es + more)
    decreases |more|
  {
    if more == [] {
      assert es + more == es;
    } else {
      assert (es + more)[..|es + more| - 1] == es + more[..|more| - 1];
      HistoryGrows(es, more[..|more| - 1]);
    }
  }

  // ---- Arbitration ----

  /** With nothing lost, the next expected number is the least one no accepted packet carried. */
  lemma NextIsLeastMissing(first: nat, maxHeld: nat, es: seq<Event>, stream: Stream)
    requires Agrees(History(es), stream)
    requires After(first, maxHeld, es).stats.lost == 0
    ensures var s := After(first, maxHeld, es);
      && first <= s.next
      && !Carries(History(es), s.next)
      && (forall n: nat | first <= n < s.next :: Carries(History(es), n))
      && s.log == Numbered(first, seq(s.next - first, i requires 0 <= i => stream(first + i)))
  {
    hide Inv, After, History, Carries, Agrees, Numbered;
    RunInv(first, maxHeld, es, stream);
    NothingSkipped(After(first, maxHeld, es), first, History(es), stream);
  }

  lemma NothingSkipped(s: State, first: nat, history: seq<Span>, stream: Stream)
    requires Inv(s, first, history, stream) && s.stats.lost == 0
    ensures first <= s.next && !Carries(history, s.next)
    ensures forall n: nat | first <= n < s.next :: Carries(history, n)
    ensures s.log == Numbered(first, seq(s.next - first, i requires 0 <= i => stream(first + i)))
  {
    hide Agrees, Total, HeldSorted;
    Contiguous(s, first, history, stream, |s.log|);
    NotWaiting(s);
    hide Carries;
    forall n: nat | first <= n < s.next ensures Carries(history, n) {
      assert s.log[n - first].number == n;
    }
  }

  /** The next number is covered by nothing held. */
  lemma NotWaiting(s: State)
    requires HeldBeyond(s)
    ensures !Carries(s.held, s.next)
  {
  }

  lemma {:induction false} Contiguous(s: State, first: nat, history: seq<Span>, stream: Stream, k: nat)
    requires LogOk(s, first, history, stream) && s.next == first + |s.log| && k <= |s.log|
    ensures forall i | |s.log| - k <= i < |s.log| :: s.log[i].number <= first + i
    ensures forall i | 0 <= i < k :: s.log[i].number >= first + i
  {
    if k > 0 {
      Contiguous(s, first, history, stream, k - 1);
      var i := |s.log| - k;
      assert i + 1 < |s.log| ==> s.log[i].number < s.log[i + 1].number;
      assert k > 1 ==> s.log[k - 2].number < s.log[k - 1].number;
    }
  }

  /** A/B arbitration does not depend on arrival order: the same numbers, none lost, give the same delivery. */
  lemma OrderIndependent(first: nat, maxA: nat, a: seq<Event>, maxB: nat, b: seq<Event>, stream: Stream)
    requires Agrees(History(a), stream) && Agrees(History(b), stream)
    requires forall n: nat :: Carries(History(a), n) <==> Carries(History(b), n)
    requires After(first, maxA, a).stats.lost == 0 && After(first, maxB, b).stats.lost == 0
    ensures After(first, maxA, a).log == After(first, maxB, b).log
  {
    hide After, History, Carries, Agrees, Numbered;
    NextIsLeastMissing(first, maxA, a, stream);
    NextIsLeastMissing(first, maxB, b, stream);
    var s, t := After(first, maxA, a), After(first, maxB, b);
    assert s.next == t.next by {
      assert s.next < t.next ==> Carries(History(b), s.next);
      assert t.next < s.next ==> Carries(History(a), t.next);
    }
  }

  // ---- Progress ----

  function GiveUpTimes(s: State, k: nat): State
    decreases k
  {
    if k == 0 then s else GiveUpTimes(GiveUp(s), k - 1)
  }

  /** Giving up an open gap brings the next number closer to the known one, and takes from the held list. */
  lemma GiveUpProgress(s: State, first: nat, history: seq<Span>, stream: Stream)
    requires Inv(s, first, history, stream)
    ensures var t := GiveUp(s);
      && Inv(t, first, history, stream)
      && t.known == s.known
      && (s.GapOpen() ==> t.next > s.next)
      && (if s.held == [] then t.held == [] && !t.GapOpen() else |t.held| < |s.held|)
  {
    hide Core, HeldSorted, GiveUp;
    GiveUpReaches(s);
    GiveUpInv(s, first, history, stream);
  }

  lemma GiveUpReaches(s: State)
    ensures GiveUp(s).next >= Target(s) && GiveUp(s).known == s.known
    ensures s.held == [] ==> !GiveUp(s).GapOpen()
  {
    DrainContinues(Skip(s));
  }

  /** |held| + 1 calls, or more, close every gap and empty the held list. */
  lemma {:induction false} GiveUpsClose(s: State, first: nat, history: seq<Span>, stream: Stream, k: nat)
    requires Inv(s, first, history, stream) && k > |s.held|
    ensures var t := GiveUpTimes(s, k); Inv(t, first, history, stream) && !t.GapOpen() && t.held == []
    decreases k
  {
    hide Inv, GiveUp;
    GiveUpProgress(s, first, history, stream);
    if k > 1 {
      GiveUpsClose(GiveUp(s), first, history, stream, k - 1);
    }
  }

  lemma {:induction false} OneMoreTime(s: State, k: nat)
    ensures GiveUpTimes(s, k + 1) == GiveUp(GiveUpTimes(s, k))
    decreases k
  {
    if k > 0 {
      OneMoreTime(GiveUp(s), k - 1);
    }
  }

  /** The receiver's last loop: give up until no gap is open. */
  method CloseGaps(q: Sequencer, ghost first: nat, ghost history: seq<Span>, ghost stream: Stream) returns (calls: nat)
    requires q.Valid() && Inv(q.Model(), first, history, stream)
    modifies q
    ensures q.Valid() && Inv(q.Model(), first, history, stream)
    ensures q.Model() == GiveUpTimes(old(q.Model()), calls) && calls <= |old(q.held)| + 1
    ensures !q.Model().GapOpen() && q.held == []
  {
    hide Inv, GiveUp;
    calls := 0;
    while q.GapOpen()
      invariant q.Valid() && Inv(q.Model(), first, history, stream)
      invariant q.Model() == GiveUpTimes(old(q.Model()), calls)
      invariant calls <= |old(q.held)| + 1
      invariant q.GapOpen() ==> calls + |q.held| <= |old(q.held)|
      decreases q.known - q.next
    {
      GiveUpProgress(q.Model(), first, history, stream);
      OneMoreTime(old(q.Model()), calls);
      q.GiveUpGap();
      calls := calls + 1;
    }
    NothingHeld(q.Model(), first, history, stream);
  }

  // ---- The end of the session ----

  lemma GiveUpEnded(s: State)
    ensures GiveUp(s).ended <==> s.ended || (s.endOfSession && !GiveUp(s).GapOpen())
    ensures GiveUp(s).endOfSession == s.endOfSession
  {
    DrainFrame(Skip(s));
  }

  lemma AcceptEnded(s: State, span: Span)
    requires span.sequence <= s.next
    ensures Accept(s, span).ended <==> s.ended || (s.endOfSession && !Accept(s, span).GapOpen())
    ensures Accept(s, span).endOfSession == s.endOfSession
  {
    DrainFrame(Deliver(s, span));
  }

  /** A step ends the session exactly when it leaves an announced end with no gap before it. */
  lemma StepEnded(s: State, e: Event)
    requires s.endOfSession && !s.GapOpen() ==> s.ended
    ensures var t := Step(s, e); t.ended <==> s.ended || (t.endOfSession && !t.GapOpen())
  {
    hide GiveUp, Accept, Drain, Deliver, Position, Redundant;
    GiveUpEnded(s);
    if e.Receive? && InSession(s, e.a) && e.a.span.messages != [] {
      var s1 := Note(s, e.a);
      var s2 := if s1.next < e.a.span.sequence then MakeRoom(s1) else s1;
      GiveUpEnded(s1);
      GiveUpFrame(s1);
      if e.a.span.sequence <= s2.next {
        AcceptEnded(s2, e.a.span);
        AcceptContinues(s2, e.a.span);
      }
    }
  }

  /** In every run: ended if and only if, after some step, the end was announced and no gap was open. */
  lemma {:induction false} EndedIff(first: nat, maxHeld: nat, es: seq<Event>, stream: Stream)
    requires Agrees(History(es), stream)
    ensures After(first, maxHeld, es).ended <==>
            exists i | 0 <= i <= |es| :: EndReached(After(first, maxHeld, es[..i]))
  {
    hide Step, Inv, History;
    assert es[..|es|] == es;
    if es == [] {
      assert !EndReached(After(first, maxHeld, es[..0]));
    } else {
      var before := es[..|es| - 1];
      PrefixAgrees(es, stream);
      EndedIff(first, maxHeld, before, stream);
      RunInv(first, maxHeld, before, stream);
      InvEnded(After(first, maxHeld, before), first, History(before), stream);
      StepEnded(After(first, maxHeld, before), es[|es| - 1]);
      forall i | 0 <= i < |es| ensures es[..i] == before[..i] {
      }
      var t := After(first, maxHeld, es);
      if t.ended && !EndReached(t) {
        var i :| 0 <= i <= |before| && EndReached(After(first, maxHeld, before[..i]));
        assert EndReached(After(first, maxHeld, es[..i]));
      }
      if EndReached(t) {
        assert EndReached(After(first, maxHeld, es[..|es|]));
      }
    }
  }

  /** From an ended session without a gap, exactly which steps open one again. */
  lemma ReopenedIff(s: State, first: nat, history: seq<Span>, stream: Stream, e: Event)
    requires Inv(s, first, history, stream) && s.ended && !s.GapOpen()
    ensures Step(s, e).ended
    ensures Step(s, e).GapOpen() <==>
            && e.Receive? && InSession(s, e.a) && s.next < e.a.span.sequence
            && (e.a.span.messages == [] || s.maxHeld > 0)
  {
    hide Core, HeldSorted, Carries, Total, Drain, Deliver, Position, Redundant, GiveUp, Accept;
    NothingHeld(s, first, history, stream);
    StepEndedKeeps(s, e);
    GiveUpReaches(s);
    GiveUpFrame(s);
    if e.Receive? && InSession(s, e.a) {
      var s1 := Note(s, e.a);
      GiveUpReaches(s1);
      GiveUpFrame(s1);
      if e.a.span.messages != [] {
        if e.a.span.sequence <= s1.next {
          AcceptClosed(s1, e.a.span);
        } else if s.maxHeld == 0 {
          AcceptClosed(GiveUp(s1), e.a.span);
        }
      }
    }
  }

  lemma AcceptClosed(s: State, span: Span)
    requires span.sequence <= s.next
    ensures Accept(s, span).next >= Max(s.next, span.End()) && Accept(s, span).known == s.known
  {
    hide Drain, Deliver;
    DeliverContinues(s, span);
    DrainContinues(Deliver(s, span));
  }

  /** The end announced at number 1 with nothing sent, and then a packet numbered 5. */
  lemma EndedWithGap(session: seq<byte>, x: Message)
    ensures var es := [Receive(Arrival(session, Span(1, []), true)), Receive(Arrival(session, Span(5, [x]), false))];
      After(1, 1, es).ended && After(1, 1, es).GapOpen()
  {
    var a, b := Receive(Arrival(session, Span(1, []), true)), Receive(Arrival(session, Span(5, [x]), false));
    assert [a, b][..1] == [a] && [a][..0] == [];
    assert After(1, 1, [a]) == Step(Initial(1, 1), a);
  }

  lemma StepEndedKeeps(s: State, e: Event)
    requires s.ended
    ensures Step(s, e).ended
  {
    StepEnded(s, e);
  }

  predicate EndReached(s: State) {
    s.endOfSession && !s.GapOpen()
  }

  lemma InvEnded(s: State, first: nat, history: seq<Span>, stream: Stream)
    requires Inv(s, first, history, stream)
    ensures EndReached(s) ==> s.ended
  {
  }

  lemma PrefixAgrees(es: seq<Event>, stream: Stream)
    requires es != [] && Agrees(History(es), stream)
    ensures Agrees(History(es[..|es| - 1]), stream)
  {
    var e := es[|es| - 1];
    AgreesPrefix(History(es[..|es| - 1]), if e.Receive?
        && SessionOf(es) == Some(e.a.session) then [e.a.span] else [], stream);
  }

  /** A held packet is itself evidence of an open gap. */
  lemma NothingHeld(s: State, first: nat, history: seq<Span>, stream: Stream)
    requires Inv(s, first, history, stream)
    ensures s.held != [] ==> s.GapOpen()
  {
  }
}
