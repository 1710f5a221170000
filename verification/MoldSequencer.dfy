/** The MoldUDP64 Sequencer: packets from any feed become each message at most once, in order. */
module MoldSequencer {
  import opened Basics
  import opened BigEndian
  import opened MoldCodec

  /** One call of the deliver callback. */
  datatype Delivery = Delivery(number: nat, message: Message)

  datatype Stats = Stats(packets: nat, heartbeats: nat, delivered: nat, duplicates: nat, held: nat, gaps: nat,
      lost: nat,
                         otherSession: nat)

  // ---- The sequencer on values ----

  /** Consecutively numbered messages. */
  datatype Span = Span(sequence: nat, messages: seq<Message>) {
    function End(): nat { sequence + |messages| }

    predicate Covers(n: nat) { sequence <= n < End() }
  }

  /** A decoded packet, with its block area split. */
  datatype Arrival = Arrival(session: seq<byte>, span: Span, end: bool) {
    predicate Heartbeat() { span.messages == [] && !end }
  }

  datatype State = State(next: nat, known: nat, maxHeld: nat, held: seq<Span>, session: Option<seq<byte>>,
                         endOfSession: bool, ended: bool, stats: Stats, log: seq<Delivery>) {
    predicate GapOpen() { known > next }
  }

  function Numbered(first: nat, ms: seq<Message>): (ds: seq<Delivery>)
    ensures |ds| == |ms|
    ensures forall i | 0 <= i < |ds| :: ds[i] == Delivery(first + i, ms[i])
  {
    seq(|ms|, i requires 0 <= i < |ms| => Delivery(first + i, ms[i]))
  }

  function Initial(first: nat, maxHeld: nat): State {
    State(first, 0, maxHeld, [], None, false, false, Stats(0, 0, 0, 0, 0, 0, 0, 0), [])
  }

  /** How many of the span's messages are below `next`, already passed. */
  function Passed(next: nat, span: Span): (k: nat)
    requires span.sequence <= next
    ensures k <= |span.messages|
  {
    if next < span.End() then next - span.sequence else |span.messages|
  }

  function Deliver(s: State, span: Span): State
    requires span.sequence <= s.next
  {
    var k := Passed(s.next, span);
    var rest := span.messages[k..];
    s.(next := s.next + |rest|,
       stats := s.stats.(duplicates := s.stats.duplicates + k, delivered := s.stats.delivered + |rest|),
       log := s.log + Numbered(s.next, rest))
  }

  function Drain(s: State): State
    decreases |s.held|
  {
    if s.held != [] && s.held[0].sequence <= s.next
    then Drain(Deliver(s.(held := s.held[1..]), s.held[0]))
    else s
  }

  function Finish(s: State): State {
    if s.endOfSession && !s.GapOpen() then s.(ended := true) else s
  }

  function Target(s: State): nat {
    if s.held == [] then s.known else s.held[0].sequence
  }

  function Skip(s: State): State {
    if Target(s) > s.next
    then s.(next := Target(s), stats := s.stats.(gaps := s.stats.gaps + 1, lost := s.stats.lost + (Target(s) - s.next)))
    else s
  }

  function GiveUp(s: State): State {
    Finish(Drain(Skip(s)))
  }

  /** The first held span not below `sequence`. */
  function Position(held: seq<Span>, sequence: nat): (at: nat)
    ensures at <= |held|
    ensures forall i | 0 <= i < at :: held[i].sequence < sequence
    ensures at < |held| ==> held[at].sequence >= sequence
  {
    if held == [] || held[0].sequence >= sequence then 0 else 1 + Position(held[1..], sequence)
  }

  lemma PositionIsUnique(held: seq<Span>, sequence: nat, at: nat)
    requires at <= |held|
    requires forall i | 0 <= i < at :: held[i].sequence < sequence
    requires at < |held| ==> held[at].sequence >= sequence
    ensures at == Position(held, sequence)
  {
  }

  /** A held copy at least as long makes `span` redundant. */
  predicate Redundant(held: seq<Span>, span: Span) {
    var at := Position(held, span.sequence);
    at < |held| && held[at].sequence == span.sequence && |held[at].messages| >= |span.messages|
  }

  function Hold(s: State, span: Span): State {
    var at := Position(s.held, span.sequence);
    if Redundant(s.held, span)
    then s.(stats := s.stats.(held := s.stats.held + 1, duplicates := s.stats.duplicates + |span.messages|))
    else s.(stats := s.stats.(held := s.stats.held + 1), held := s.held[..at] + [span] + s.held[at..])
  }

  function Accept(s: State, span: Span): State
    requires span.sequence <= s.next
  {
    Finish(Drain(Deliver(s, span)))
  }

  predicate InSession(s: State, a: Arrival) {
    s.session == None || s.session == Some(a.session)
  }

  /** The session, the announced numbers and the counters, before any message is looked at. */
  function Note(s: State, a: Arrival): State {
    s.(session := Some(a.session),
       known := Max(s.known, a.span.End()),
       endOfSession := s.endOfSession || a.end,
       stats := s.stats.(packets := s.stats.packets + 1,
                         heartbeats := s.stats.heartbeats + if a.Heartbeat() then 1 else 0))
  }

  /** Room for one more held packet, giving up the oldest gap if there is none. */
  function MakeRoom(s: State): State {
    if |s.held| >= s.maxHeld then GiveUp(s) else s
  }

  /** Delivers the span, holds it beyond a gap, or has nothing to deliver. */
  function Settle(s: State, span: Span): State {
    if span.messages == [] then Finish(s)
    else if span.sequence <= s.next then Accept(s, span)
    else
      var t := MakeRoom(s);
      if span.sequence <= t.next then Accept(t, span) else Hold(t, span)
  }

  function Arrive(s: State, a: Arrival): State {
    if !InSession(s, a) then s.(stats := s.stats.(otherSession := s.stats.otherSession + 1))
    else Settle(Note(s, a), a.span)
  }

  function DeliverNext(s: State, number: nat, message: Message): State {
    if number < s.next
    then s.(stats := s.stats.(duplicates := s.stats.duplicates + 1))
    else
      s.(next := s.next + 1, stats := s.stats.(delivered := s.stats.delivered + 1),
         log := s.log + [Delivery(number, message)])
  }

  /** Delivering one message more. */
  lemma DeliverStep(s: State, sequence: nat, ms: seq<Message>, i: nat)
    requires sequence <= s.next && i < |ms|
    ensures var t := Deliver(s, Span(sequence, ms[..i]));
      Deliver(s, Span(sequence, ms[..i + 1])) == DeliverNext(t, sequence + i, ms[i])
  {
    var was, now := Span(sequence, ms[..i]), Span(sequence, ms[..i + 1]);
    var k := Passed(s.next, was);
    if sequence + i < s.next {
      assert was.messages[k..] == now.messages[Passed(s.next, now)..] == [];
    } else {
      assert Passed(s.next, now) == k;
      assert now.messages[k..] == was.messages[k..] + [ms[i]];
      assert Numbered(s.next, now.messages[k..]) ==
          Numbered(s.next, was.messages[k..]) + [Delivery(sequence + i, ms[i])];
      assert s.log + Numbered(s.next, now.messages[k..]) ==
          s.log + Numbered(s.next, was.messages[k..]) + [Delivery(sequence + i, ms[i])];
    }
  }

  lemma DeliverNothing(s: State, sequence: nat)
    requires sequence <= s.next
    ensures Deliver(s, Span(sequence, [])) == s
  {
    assert s.log + Numbered(s.next, []) == s.log;
  }

  // ---- The class ----

  datatype Held = Held(sequence: u64, count: u16, blocks: seq<byte>)

  function SpanOf(h: Held): Span {
    Span(h.sequence, MessagesIn(h.blocks, h.count))
  }

  function Spans(held: seq<Held>): (spans: seq<Span>)
    ensures |spans| == |held|
    ensures forall i | 0 <= i < |held| :: spans[i] == SpanOf(held[i])
  {
    seq(|held|, i requires 0 <= i < |held| => SpanOf(held[i]))
  }

  lemma SameNumbers(held: seq<Held>)
    ensures forall i | 0 <= i < |held| :: Spans(held)[i].sequence == held[i].sequence
  {
  }

  function ArrivalOf(p: Packet): Arrival {
    Arrival(p.session, Span(p.sequence, MessagesOf(p)), p.EndOfSession())
  }

  class Sequencer {
    var next: u64
    var known: u64
    const maxHeld: nat
    var held: seq<Held>
    var session: seq<byte>
    var haveSession: bool
    var endOfSession: bool
    var ended: bool
    var stats: Stats
    var log: seq<Delivery> // every deliver(number, message) call, in order

    ghost predicate Valid()
      reads this
    {
      forall i | 0 <= i < |held| ::
        Exact(held[i].blocks, held[i].count) && held[i].sequence + held[i].count <= MAX_U64
    }

    ghost function Model(): State
      reads this
    {
      State(next, known, maxHeld, Spans(held), if haveSession then Some(session)
          else None, endOfSession, ended, stats, log)
    }

    constructor (firstSequence: u64, maxHeld: nat)
      ensures Valid() && Model() == Initial(firstSequence, maxHeld)
    {
      next, known, held, session := firstSequence, 0, [], seq(SESSION_BYTES, _ => 0);
      haveSession, endOfSession, ended := false, false, false;
      stats, log := Stats(0, 0, 0, 0, 0, 0, 0, 0), [];
      this.maxHeld := maxHeld;
    }

    method OnPacket(p: Packet)
      requires Valid() && Decoded(p)
      modifies this
      ensures Valid() && Model() == Arrive(old(Model()), ArrivalOf(p))
    {
      hide SplitBlocks, MessagesIn, Exact, Spans, SpanOf, Settle;
      CountOfExact(p.blocks, p.MessageCount());
      if !haveSession {
        session := p.session;
        haveSession := true;
      } else if p.session != session {
        stats := stats.(otherSession := stats.otherSession + 1);
        return;
      }
      stats := stats.(packets := stats.packets + 1);
      var end: u64 := p.sequence + p.MessageCount();
      if end > known {
        known := end;
      }
      if p.Heartbeat() {
        stats := stats.(heartbeats := stats.heartbeats + 1);
      }
      if p.EndOfSession() {
        endOfSession := true;
      }
      assert Model() == Note(old(Model()), ArrivalOf(p));
      SettlePacket(p);
    }

    /** The rest of onPacket, once the packet has been noted. */
    method SettlePacket(p: Packet)
      requires Valid() && Decoded(p)
      modifies this
      ensures Valid() && Model() == Settle(old(Model()), ArrivalOf(p).span)
    {
      hide SplitBlocks, MessagesIn, Exact, Spans, SpanOf, Drain, Deliver, Hold, GiveUp, Finish, Sequencer.Valid;
      CountOfExact(p.blocks, p.MessageCount());
      if p.MessageCount() == 0 {
        FinishIfEnded();
        return;
      }
      if p.sequence > next {
        if |held| >= maxHeld {
          GiveUpGap();
        }
        if p.sequence > next {
          HoldPacket(p);
          return;
        }
      }
      DeliverNew(p.sequence, p.blocks, p.MessageCount());
      DrainHeld();
      FinishIfEnded();
    }

    method GiveUpGap()
      requires Valid()
      modifies this
      ensures Valid() && Model() == GiveUp(old(Model()))
    {
      var target := if held == [] then known else held[0].sequence;
      if target > next {
        stats := stats.(gaps := stats.gaps + 1, lost := stats.lost + (target - next));
        next := target;
      }
      assert Model() == Skip(old(Model()));
      DrainHeld();
      FinishIfEnded();
    }

    method DeliverNew(sequence: u64, blocks: seq<byte>, count: u16)
      requires Valid() && Exact(blocks, count) && sequence + count <= MAX_U64
      requires sequence <= next
      modifies this
      ensures Valid() && Model() == Deliver(old(Model()), Span(sequence, MessagesIn(blocks, count)))
    {
      hide Be16, SplitBlocks, Deliver, Passed, Numbered, Blocks;
      ghost var ms := MessagesIn(blocks, count);
      CountOfExact(blocks, count);
      DeliverNothing(Model(), sequence);
      assert blocks[0..] == blocks && ms[..0] == [];
      var offset: nat := 0;
      for i := 0 to count
        invariant offset <= |blocks| && SplitBlocks(blocks[offset..], count - i) == Split(ms[i..], [])
        invariant next <= Max(old(next), sequence + i) <= MAX_U64
        invariant held == old(held)
        invariant Model() == Deliver(old(Model()), Span(sequence, ms[..i]))
      {
        SplitAt(blocks, offset, count - i);
        DeliverStep(old(Model()), sequence, ms, i);
        var len := Be16(blocks, offset);
        var message := blocks[offset + 2..offset + 2 + len];
        SplitHead(SplitBlocks(blocks[offset + 2 + len..], count - i - 1), message, ms[i..]);
        DeliverOne(sequence + i, message);
        offset := offset + 2 + len;
      }
      assert ms[..count] == ms;
    }

    /** One message: counted as a duplicate, or delivered. */
    method DeliverOne(number: u64, message: Message)
      requires Valid() && (number < next || next < MAX_U64)
      modifies this
      ensures Valid() && held == old(held)
      ensures Model() == DeliverNext(old(Model()), number, message)
    {
      hide Spans;
      if number < next {
        stats := stats.(duplicates := stats.duplicates + 1);
        return;
      }
      next := next + 1;
      stats := stats.(delivered := stats.delivered + 1);
      log := log + [Delivery(number, message)];
    }

    method HoldPacket(p: Packet)
      requires Valid() && Decoded(p) && p.MessageCount() > 0
      modifies this
      ensures Valid() && Model() == Hold(old(Model()), ArrivalOf(p).span)
    {
      hide SplitBlocks, MessagesIn, Exact, Position, Spans;
      CountOfExact(p.blocks, p.MessageCount());
      stats := stats.(held := stats.held + 1);
      var at := FindPlace(p.sequence);
      if at < |held| {
        CountOfExact(held[at].blocks, held[at].count);
      }
      if at < |held| && held[at].sequence == p.sequence && held[at].count >= p.count {
        stats := stats.(duplicates := stats.duplicates + p.count);
        return;
      }
      InsertHeld(at, p);
    }

    method InsertHeld(at: nat, p: Packet)
      requires Valid() && Decoded(p) && p.MessageCount() > 0 && at <= |held|
      modifies `held
      ensures Valid() && Spans(held) == Spans(old(held))[..at] + [ArrivalOf(p).span] + Spans(old(held))[at..]
    {
      hide SplitBlocks, MessagesIn, Exact;
      ghost var spans := Spans(held);
      held := held[..at] + [Held(p.sequence, p.count, p.blocks)] + held[at..];
      assert SpanOf(held[at]) == ArrivalOf(p).span;
      assert Spans(held) == spans[..at] + [ArrivalOf(p).span] + spans[at..];
    }

    method FindPlace(sequence: u64) returns (at: nat)
      ensures at <= |held| && at == Position(Spans(held), sequence)
    {
      hide Position, SpanOf;
      at := 0;
      while at < |held| && held[at].sequence < sequence
        invariant at <= |held|
        invariant forall i | 0 <= i < at :: held[i].sequence < sequence
      {
        at := at + 1;
      }
      SameNumbers(held);
      PositionIsUnique(Spans(held), sequence, at);
    }

    method DrainHeld()
      requires Valid()
      modifies this
      ensures Valid() && Model() == Drain(old(Model()))
    {
      while held != [] && held[0].sequence <= next
        invariant Valid() && Drain(Model()) == Drain(old(Model()))
        decreases |held|
      {
        var h := held[0];
        assert Spans(held[1..]) == Spans(held)[1..];
        held := held[1..];
        DeliverNew(h.sequence, h.blocks, h.count);
      }
    }

    method FinishIfEnded()
      requires Valid()
      modifies this
      ensures Valid() && Model() == Finish(old(Model()))
    {
      if endOfSession && !GapOpen() {
        ended := true;
      }
    }

    predicate GapOpen()
      reads this
      ensures GapOpen() == Model().GapOpen()
    {
      known > next
    }
  }

  lemma CountOfExact(blocks: seq<byte>, n: nat)
    requires Exact(blocks, n)
    ensures |MessagesIn(blocks, n)| == n
  {
    BlocksOfSplit(blocks, n);
  }

  lemma SplitHead(tail: Split, m: Message, ms: seq<Message>)
    requires tail.Prepend([m]) == Split(ms, [])
    ensures ms != [] && ms[0] == m && tail == Split(ms[1..], [])
  {
  }
}
