/** mold_send to mold_recv: what a session's datagrams become after any network. */
module MoldFeed {
  import opened Basics
  import opened BigEndian
  import opened MoldCodec
  import opened MoldSequencer
  import opened MoldDelivery
  import opened MoldGuarantees

  // ---- The sender ----

  datatype SendResult = Sent(datagrams: seq<seq<byte>>) | BadMaxBytes | MessageTooBig(datagrams: seq<seq<byte>>)

  /** The data packets are cut at `cuts`, numbered from 1; three end-of-session packets follow. */
  predicate Packetised(datagrams: seq<seq<byte>>, session: seq<byte>, messages: seq<Message>, cuts: seq<nat>) {
    && |messages| < MAX_U64
    && |session| == SESSION_BYTES
    && |datagrams| >= 3
    && Parts(datagrams[..|datagrams| - 3], session, messages, cuts, |messages|)
    && (forall i | |datagrams| - 3 <= i < |datagrams| ::
          datagrams[i] == Encode(session, 1 + |messages|, END_OF_SESSION, []))
  }

  /** Datagrams carrying the first `end` messages, in order, each message once. */
  predicate Parts(datagrams: seq<seq<byte>>, session: seq<byte>, messages: seq<Message>, cuts: seq<nat>, end: nat) {
    && |cuts| == |datagrams| + 1 && cuts[0] == 0 && cuts[|datagrams|] == end
    && (forall i | 0 <= i < |datagrams| :: IsPart(datagrams[i], session, messages, cuts[i], cuts[i + 1]))
  }

  lemma NoParts(session: seq<byte>, messages: seq<Message>)
    ensures Parts([], session, messages, [0], 0)
  {
  }

  predicate IsPart(datagram: seq<byte>, session: seq<byte>, messages: seq<Message>, from: nat, to: nat) {
    && from < to <= |messages| < MAX_U64 && to - from < END_OF_SESSION
    && Encodable(session, 1 + from, to - from, messages[from..to])
    && datagram == Encode(session, 1 + from, to - from, messages[from..to])
  }

  /** The packet of messages `from` to `to` has no room for message `to`: too few bytes, or the count is at its end. */
  predicate NoRoom(datagram: seq<byte>, messages: seq<Message>, from: nat, to: nat, maxBytes: nat) {
    to < |messages| && (|datagram| + 2 + |messages[to]| > maxBytes || to - from == END_OF_SESSION - 1)
  }

  /** No datagram is too long, and the first `full` of them had no room for one message more. */
  predicate Greedy(datagrams: seq<seq<byte>>, messages: seq<Message>, cuts: seq<nat>, maxBytes: nat, full: int) {
    && |cuts| == |datagrams| + 1 && full <= |datagrams|
    && (forall i | 0 <= i < |datagrams| :: |datagrams[i]| <= maxBytes)
    && (forall i | 0 <= i < full :: NoRoom(datagrams[i], messages, cuts[i], cuts[i + 1], maxBytes))
  }

  /** A packet sent because it had no room, or as the last one. */
  lemma GreedyStep(datagrams: seq<seq<byte>>, messages: seq<Message>, cuts: seq<nat>, maxBytes: nat,
                   datagram: seq<byte>, k: nat)
    requires Greedy(datagrams, messages, cuts, maxBytes, |datagrams|) && |datagram| <= maxBytes
    ensures Greedy(datagrams + [datagram], messages, cuts + [k], maxBytes, |datagrams|)
    ensures NoRoom(datagram, messages, cuts[|datagrams|], k, maxBytes) ==>
        Greedy(datagrams + [datagram], messages, cuts + [k], maxBytes, |datagrams| + 1)
  {
  }

  lemma WriterSize(writer: PacketWriter)
    requires writer.Valid()
    ensures HEADER_BYTES + |Blocks(writer.added)| <= writer.buffer.Length && |writer.added| < END_OF_SESSION
  {
  }

  lemma EncodeSize(session: seq<byte>, sequence: u64, count: u16, ms: seq<Message>)
    requires AllFrameable(ms) && |session| == SESSION_BYTES
    ensures |Encode(session, sequence, count, ms)| == HEADER_BYTES + |Blocks(ms)|
  {
  }

  /** The sender's `flush`: sends what the writer holds, if anything, and starts the next packet. */
  method Flush(writer: PacketWriter, datagrams: seq<seq<byte>>, nextSequence: u64, ghost messages: seq<Message>,
               ghost cuts: seq<nat>, ghost k: nat)
    returns (out: seq<seq<byte>>, next: u64, ghost newCuts: seq<nat>)
    requires writer.Valid() && writer.sequence == nextSequence && 1 <= nextSequence <= k + 1
    requires k <= |messages| < MAX_U64 && writer.added == messages[nextSequence - 1..k]
    requires Parts(datagrams, writer.session, messages, cuts, nextSequence - 1)
    modifies writer, writer.buffer
    ensures writer.Valid() && writer.added == [] && writer.sequence == next == k + 1
    ensures Parts(out, writer.session, messages, newCuts, k)
    ensures
      if old(writer.added) == [] then out == datagrams && newCuts == cuts
      else
        && |out| == |datagrams| + 1 && out == datagrams + [out[|datagrams|]] && newCuts == cuts + [k]
        && |out[|datagrams|]| == HEADER_BYTES + |Blocks(old(writer.added))|
  {
    hide Encode;
    EncodeSize(writer.session, writer.sequence, writer.count, writer.added);
    if writer.count == 0 {
      return datagrams, nextSequence, cuts;
    }
    var count := writer.count;
    var datagram := writer.Finish();
    next := nextSequence + count;
    writer.Begin(next);
    newCuts := cuts + [k];
    out := datagrams + [datagram];
  }

  predicate Fits(m: Message, maxBytes: nat) {
    HEADER_BYTES + 2 + |m| <= maxBytes
  }

  /** Message `k` fits no packet, and those before it all do. */
  predicate FirstTooBig(messages: seq<Message>, maxBytes: nat, k: nat) {
    k < |messages| && !Fits(messages[k], maxBytes) && forall j | 0 <= j < k :: Fits(messages[j], maxBytes)
  }

  /** The sender's loop body: add the message, or send what is held and add it to the next packet. */
  method AddOrFlush(writer: PacketWriter, datagrams: seq<seq<byte>>, nextSequence: u64, messages: seq<Message>,
                    ghost cuts: seq<nat>, k: nat)
    returns (ok: bool, out: seq<seq<byte>>, next: u64, ghost newCuts: seq<nat>)
    requires writer.Valid() && writer.sequence == nextSequence && 1 <= nextSequence <= k + 1
    requires k < |messages| < MAX_U64 && messages[k] != [] && writer.buffer.Length <= 65_000
    requires writer.added == messages[nextSequence - 1..k]
    requires Parts(datagrams, writer.session, messages, cuts, nextSequence - 1)
    requires Greedy(datagrams, messages, cuts, writer.buffer.Length, |datagrams|)
    modifies writer, writer.buffer
    ensures writer.Valid() && writer.sequence == next && 1 <= next <= k + 1
    ensures ok <==> Fits(messages[k], writer.buffer.Length)
    ensures Parts(out, writer.session, messages, newCuts, next - 1)
    ensures Greedy(out, messages, newCuts, writer.buffer.Length, |out|)
    ensures if ok then writer.added == messages[next - 1..k + 1] else next == k + 1
  {
    hide Encode, Blocks, Parts, AllFrameable, PacketWriter.Valid, Greedy;
    NoBlocks();
    var m := messages[k];
    out, next, newCuts := datagrams, nextSequence, cuts;
    ok := writer.Add(m);
    if !ok {
      LastCut(datagrams, writer.session, messages, cuts, nextSequence - 1);
      WriterSize(writer);
      out, next, newCuts := Flush(writer, datagrams, nextSequence, messages, cuts, k);
      if |out| > |datagrams| {
        GreedyStep(datagrams, messages, cuts, writer.buffer.Length, out[|datagrams|], k);
      }
      ok := writer.Add(m);
    }
    OneMessageMore(messages, next - 1, k);
  }

  lemma LastCut(datagrams: seq<seq<byte>>, session: seq<byte>, messages: seq<Message>, cuts: seq<nat>, end: nat)
    requires Parts(datagrams, session, messages, cuts, end)
    ensures |cuts| == |datagrams| + 1 && cuts[|datagrams|] == end
  {
  }

  lemma OneMessageMore(messages: seq<Message>, from: nat, k: nat)
    requires from <= k < |messages|
    ensures messages[from..k] + [messages[k]] == messages[from..k + 1]
  {
  }

  method Send(messages: seq<Message>, maxBytes: nat, name: seq<byte>) returns (r: SendResult, ghost cuts: seq<nat>)
    requires |messages| < MAX_U64
    requires forall k | 0 <= k < |messages| :: messages[k] != []
    ensures r == BadMaxBytes <==> !(HEADER_BYTES + 2 + 64 <= maxBytes <= 65_000)
    ensures r.MessageTooBig? ==>
      && (exists k | FirstTooBig(messages, maxBytes, k) :: Parts(r.datagrams, SessionName(name), messages, cuts, k))
      && Greedy(r.datagrams, messages, cuts, maxBytes, |r.datagrams|)
    ensures r.Sent? ==>
      && Packetised(r.datagrams, SessionName(name), messages, cuts)
      && (forall k | 0 <= k < |messages| :: Fits(messages[k], maxBytes))
      && Greedy(r.datagrams[..|r.datagrams| - 3], messages, cuts, maxBytes, |r.datagrams| - 4)
  {
    if maxBytes < HEADER_BYTES + 2 + 64 || maxBytes > 65_000 {
      return BadMaxBytes, [];
    }
    hide Packetised, Parts, FirstTooBig;
    var buffer := new byte[maxBytes];
    var writer := new PacketWriter(buffer, name);
    r, cuts := SendMessages(writer, messages);
  }

  /** The sender's main loop. */
  method SendMessages(writer: PacketWriter, messages: seq<Message>) returns (r: SendResult, ghost cuts: seq<nat>)
    requires writer.Valid() && writer.buffer.Length <= 65_000
    requires |messages| < MAX_U64
    requires forall k | 0 <= k < |messages| :: messages[k] != []
    modifies writer, writer.buffer
    ensures r != BadMaxBytes
    ensures r.MessageTooBig? ==>
      && (exists k | FirstTooBig(messages, writer.buffer.Length, k) ::
            Parts(r.datagrams, writer.session, messages, cuts, k))
      && Greedy(r.datagrams, messages, cuts, writer.buffer.Length, |r.datagrams|)
    ensures r.Sent? ==>
      && Packetised(r.datagrams, writer.session, messages, cuts)
      && (forall k | 0 <= k < |messages| :: Fits(messages[k], writer.buffer.Length))
      && Greedy(r.datagrams[..|r.datagrams| - 3], messages, cuts, writer.buffer.Length, |r.datagrams| - 4)
  {
    hide Encode, Blocks, Parts, Fits;
    cuts := [0];
    NoParts(writer.session, messages);
    var datagrams: seq<seq<byte>> := [];
    var nextSequence: u64 := 1;
    writer.Begin(nextSequence);
    for k := 0 to |messages|
      invariant writer.Valid() && writer.sequence == nextSequence && 1 <= nextSequence <= k + 1
      invariant writer.added == messages[nextSequence - 1..k]
      invariant Parts(datagrams, writer.session, messages, cuts, nextSequence - 1)
      invariant Greedy(datagrams, messages, cuts, writer.buffer.Length, |datagrams|)
      invariant forall j | 0 <= j < k :: Fits(messages[j], writer.buffer.Length)
    {
      var ok;
      ok, datagrams, nextSequence, cuts := AddOrFlush(writer, datagrams, nextSequence, messages, cuts, k);
      if !ok {
        assert FirstTooBig(messages, writer.buffer.Length, k);
        return MessageTooBig(datagrams), cuts;
      }
    }
    datagrams, nextSequence, cuts := SendRest(writer, datagrams, nextSequence, messages, cuts);
    datagrams := EndSession(writer, datagrams, nextSequence);
    return Sent(datagrams), cuts;
  }

  /** The last `flush`: what it sends may have room for more. */
  method SendRest(writer: PacketWriter, datagrams: seq<seq<byte>>, nextSequence: u64, ghost messages: seq<Message>,
                  ghost cuts: seq<nat>)
    returns (out: seq<seq<byte>>, next: u64, ghost newCuts: seq<nat>)
    requires writer.Valid() && writer.sequence == nextSequence && 1 <= nextSequence <= |messages| + 1
    requires |messages| < MAX_U64 && writer.added == messages[nextSequence - 1..]
    requires Parts(datagrams, writer.session, messages, cuts, nextSequence - 1)
    requires Greedy(datagrams, messages, cuts, writer.buffer.Length, |datagrams|)
    modifies writer, writer.buffer
    ensures writer.Valid() && next == |messages| + 1
    ensures Parts(out, writer.session, messages, newCuts, |messages|)
    ensures Greedy(out, messages, newCuts, writer.buffer.Length, |out| - 1)
  {
    hide Encode, Blocks, Parts, PacketWriter.Valid, NoRoom;
    WriterSize(writer);
    out, next, newCuts := Flush(writer, datagrams, nextSequence, messages, cuts, |messages|);
    if |out| > |datagrams| {
      GreedyStep(datagrams, messages, cuts, writer.buffer.Length, out[|datagrams|], |messages|);
    }
  }

  /** A lost end-of-session packet has two more chances. */
  method EndSession(writer: PacketWriter, datagrams: seq<seq<byte>>, nextSequence: u64) returns (all: seq<seq<byte>>)
    requires writer.Valid()
    modifies writer, writer.buffer
    ensures |all| == |datagrams| + 3 && all[..|datagrams|] == datagrams
    ensures forall j | |datagrams| <= j < |all| :: all[j] == Encode(writer.session, nextSequence, END_OF_SESSION, [])
  {
    hide Encode;
    all := datagrams;
    for i := 0 to 3
      invariant writer.Valid()
      invariant |all| == |datagrams| + i && all[..|datagrams|] == datagrams
      invariant forall j | |datagrams| <= j < |all| ::
          all[j] == Encode(writer.session, nextSequence, END_OF_SESSION, [])
    {
      var datagram := writer.Control(nextSequence, END_OF_SESSION);
      all := all + [datagram];
    }
  }

  // ---- The network and the receiver ----

  /** What the receiver sees next: some datagram from some feed, or its own decision that a gap has lasted too long. */
  datatype Net = Datagram(bytes: seq<byte>) | Impatience

  /**
   * Loss, duplication, reordering, corruption that decode() notices, and packets of other sessions; nothing is
   * forged in the name of this one.
   */
  predicate FromSession(net: seq<Net>, session: seq<byte>, datagrams: seq<seq<byte>>) {
    forall i | 0 <= i < |net| && net[i].Datagram? :: Unforged(net[i].bytes, session, datagrams)
  }

  predicate Unforged(bytes: seq<byte>, session: seq<byte>, datagrams: seq<seq<byte>>) {
    bytes in datagrams || DecodeSpec(bytes).Refused? || DecodeSpec(bytes).packet.session != session
  }

  function EventOf(n: Net): seq<Event> {
    match n
    case Impatience => [GiveUpGap]
    case Datagram(bytes) =>
      match DecodeSpec(bytes)
      case Refused(_) => []
      case Ok(p) => [Receive(ArrivalOf(p))]
  }

  function EventsOf(net: seq<Net>): seq<Event> {
    if net == [] then [] else EventsOf(net[..|net| - 1]) + EventOf(net[|net| - 1])
  }

  function Datagrams(net: seq<Net>): seq<seq<byte>> {
    if net == [] then []
    else Datagrams(net[..|net| - 1]) + match net[|net| - 1] case Impatience => [] case Datagram(bytes) => [bytes]
  }

  /** How many datagrams were refused for this reason. */
  function RefusedAs(net: seq<Net>, error: PacketError): nat {
    if net == [] then 0
    else
      var n := net[|net| - 1];
      RefusedAs(net[..|net| - 1], error) + if n.Datagram? && DecodeSpec(n.bytes) == Refused(error) then 1 else 0
  }

  /** One pass of the receiver's loop: what each socket had, and whether the wait for an open gap has run out. */
  datatype Round = Round(datagrams: seq<seq<byte>>, timeUp: bool)

  function Offered(rounds: seq<Round>): seq<seq<byte>> {
    if rounds == [] then [] else Offered(rounds[..|rounds| - 1]) + rounds[|rounds| - 1].datagrams
  }

  type Counts = map<PacketError, nat>

  const NONE_REFUSED: Counts :=
    map[TooShort := 0, BlockOverrun := 0, CountMismatch := 0, EmptyMessage := 0, SequenceOverflow := 0]

  ghost predicate Counted(malformed: Counts, net: seq<Net>) {
    forall e: PacketError :: e in malformed && malformed[e] == RefusedAs(net, e)
  }

  /** What the sequencer makes of one more thing from the network. */
  function Heard(s: State, n: Net): State {
    match n
    case Impatience => GiveUp(s)
    case Datagram(bytes) =>
      match DecodeSpec(bytes)
      case Refused(_) => s
      case Ok(p) => Arrive(s, ArrivalOf(p))
  }

  lemma NetStep(net: seq<Net>, n: Net, maxHeld: nat)
    ensures After(1, maxHeld, EventsOf(net + [n])) == Heard(After(1, maxHeld, EventsOf(net)), n)
    ensures Datagrams(net + [n]) == Datagrams(net) + match n case Impatience => [] case Datagram(bytes) => [bytes]
  {
    hide DecodeSpec, Arrive, GiveUp, ArrivalOf;
    assert (net + [n])[..|net|] == net;
    var es := EventsOf(net);
    assert es + [] == es && Datagrams(net) + [] == Datagrams(net);
    forall e: Event ensures After(1, maxHeld, es + [e]) == Step(After(1, maxHeld, es), e) {
      assert (es + [e])[..|es|] == es;
    }
  }

  function Refuse(malformed: Counts, n: Net): Counts
    requires forall e: PacketError :: e in malformed
  {
    match n
    case Impatience => malformed
    case Datagram(bytes) =>
      match DecodeSpec(bytes)
      case Refused(e) => malformed[e := malformed[e] + 1]
      case Ok(_) => malformed
  }

  lemma CountStep(malformed: Counts, net: seq<Net>, n: Net)
    requires Counted(malformed, net)
    ensures Counted(Refuse(malformed, n), net + [n])
  {
    hide DecodeSpec;
    assert (net + [n])[..|net|] == net;
  }

  /** The sequencer has seen `net`, which offered the datagrams of some rounds, with every refusal counted. */
  ghost predicate Received(q: Sequencer, maxHeld: nat, malformed: Counts, net: seq<Net>)
    reads q
  {
    q.Valid() && q.Model() == After(1, maxHeld, EventsOf(net)) && Counted(malformed, net)
  }

  /** One datagram: decoded, then counted or handed to the sequencer. */
  method TakeDatagram(q: Sequencer, bytes: seq<byte>, malformed: Counts, ghost maxHeld: nat, ghost net: seq<Net>)
    returns (counts: Counts)
    requires Received(q, maxHeld, malformed, net)
    modifies q
    ensures Received(q, maxHeld, counts, net + [Datagram(bytes)])
  {
    hide After, EventsOf, DecodeSpec, Decoded, Arrive, Counted;
    NetStep(net, Datagram(bytes), maxHeld);
    CountStep(malformed, net, Datagram(bytes));
    counts := malformed;
    var r := Decode(bytes);
    match r
    case Refused(e) =>
      InCounts(malformed, net, e);
      counts := counts[e := counts[e] + 1];
    case Ok(p) =>
      EncodeOfDecode(bytes);
      q.OnPacket(p);
  }

  lemma InCounts(malformed: Counts, net: seq<Net>, e: PacketError)
    requires Counted(malformed, net)
    ensures e in malformed
  {
  }

  function AsNet(datagrams: seq<seq<byte>>): (net: seq<Net>)
    ensures |net| == |datagrams| && forall i | 0 <= i < |net| :: net[i] == Datagram(datagrams[i])
  {
    seq(|datagrams|, i requires 0 <= i < |datagrams| => Datagram(datagrams[i]))
  }

  /** What the sockets had, one datagram after the other. */
  method TakeAll(q: Sequencer, datagrams: seq<seq<byte>>, malformed: Counts, ghost maxHeld: nat, ghost net: seq<Net>)
    returns (counts: Counts, ghost more: seq<Net>)
    requires Received(q, maxHeld, malformed, net)
    modifies q
    ensures Received(q, maxHeld, counts, more) && more == net + AsNet(datagrams)
    ensures datagrams == [] ==> q.Model() == old(q.Model())
  {
    hide Received, Datagrams, Heard, After, EventsOf;
    counts, more := malformed, net;
    ghost var all := AsNet(datagrams);
    for i := 0 to |datagrams|
      invariant Received(q, maxHeld, counts, more) && more == net + all[..i]
      invariant i == 0 ==> q.Model() == old(q.Model())
    {
      counts := TakeDatagram(q, datagrams[i], counts, maxHeld, more);
      more := more + [all[i]];
    }
    assert all[..|datagrams|] == all;
  }

  /** What the rounds bring: their datagrams, and a give-up after an empty round whose wait for a gap has run out. */
  function Seen(rounds: seq<Round>, maxHeld: nat): seq<Net> {
    if rounds == [] then []
    else
      var before, round := Seen(rounds[..|rounds| - 1], maxHeld), rounds[|rounds| - 1];
      var open := After(1, maxHeld, EventsOf(before)).GapOpen();
      before + AsNet(round.datagrams) + if open && round.datagrams == [] && round.timeUp then [Impatience] else []
  }

  /** Every datagram of the rounds is seen, and no other. */
  lemma {:induction false} SeenIsOffered(rounds: seq<Round>, maxHeld: nat)
    ensures Datagrams(Seen(rounds, maxHeld)) == Offered(rounds)
  {
    hide After, EventsOf, Datagrams, DecodeSpec;
    NothingSeen(maxHeld);
    if rounds != [] {
      var before, round := Seen(rounds[..|rounds| - 1], maxHeld), rounds[|rounds| - 1];
      SeenIsOffered(rounds[..|rounds| - 1], maxHeld);
      MoreDatagrams(before, round.datagrams, |round.datagrams|);
      assert AsNet(round.datagrams)[..|round.datagrams|] == AsNet(round.datagrams);
      assert before + AsNet(round.datagrams) + [] == before + AsNet(round.datagrams);
      NetStep(before + AsNet(round.datagrams), Impatience, maxHeld);
    }
  }

  lemma NothingSeen(maxHeld: nat)
    ensures Seen([], maxHeld) == [] && Datagrams([]) == []
  {
  }

  lemma {:induction false} MoreDatagrams(net: seq<Net>, datagrams: seq<seq<byte>>, n: nat)
    requires n <= |datagrams|
    ensures Datagrams(net + AsNet(datagrams)[..n]) == Datagrams(net) + datagrams[..n]
  {
    var all := AsNet(datagrams);
    if n == 0 {
      assert net + all[..0] == net;
    } else {
      MoreDatagrams(net, datagrams, n - 1);
      assert net + all[..n] == net + all[..n - 1] + [all[n - 1]];
      assert (net + all[..n])[..|net| + n - 1] == net + all[..n - 1];
    }
  }

  /** Every socket once, then the wait. */
  method OneRound(q: Sequencer, round: Round, malformed: Counts, ghost maxHeld: nat, ghost net: seq<Net>)
    returns (counts: Counts, ghost more: seq<Net>)
    requires Received(q, maxHeld, malformed, net)
    modifies q
    ensures Received(q, maxHeld, counts, more)
    ensures more == net + AsNet(round.datagrams)
        + if old(q.GapOpen()) && round.datagrams == [] && round.timeUp then [Impatience] else []
  {
    hide Received, Heard, After, EventsOf, Sequencer.Model, Sequencer.Valid;
    counts, more := TakeAll(q, round.datagrams, malformed, maxHeld, net);
    if q.GapOpen() && round.datagrams == [] && round.timeUp {
      LoseTheGap(q, maxHeld, counts, more);
      more := more + [Impatience];
    }
  }

  method LoseTheGap(q: Sequencer, ghost maxHeld: nat, ghost malformed: Counts, ghost net: seq<Net>)
    requires Received(q, maxHeld, malformed, net)
    modifies q
    ensures Received(q, maxHeld, malformed, net + [Impatience])
  {
    hide After, EventsOf, GiveUp, Counted;
    NetStep(net, Impatience, maxHeld);
    CountStep(malformed, net, Impatience);
    q.GiveUpGap();
  }

  /** The receiver's loop: it stops as soon as the session has ended, or when there are no more rounds. */
  method Receiver(rounds: seq<Round>, maxHeld: nat)
    returns (q: Sequencer, malformed: Counts, n: nat, ghost net: seq<Net>)
    ensures fresh(q) && Received(q, maxHeld, malformed, net)
    ensures n <= |rounds| && net == Seen(rounds[..n], maxHeld) && (n < |rounds| ==> q.ended)
    ensures forall k | 0 <= k < n :: !After(1, maxHeld, EventsOf(Seen(rounds[..k], maxHeld))).ended
  {
    hide Received, EventsOf, After, AsNet, Sequencer.Valid;
    q := new Sequencer(1, maxHeld);
    malformed, n, net := NONE_REFUSED, 0, [];
    NothingYet(q, maxHeld, rounds);
    while n < |rounds| && !q.ended
      invariant n <= |rounds| && fresh(q) && Received(q, maxHeld, malformed, net)
      invariant net == Seen(rounds[..n], maxHeld)
      invariant forall k | 0 <= k < n :: !After(1, maxHeld, EventsOf(Seen(rounds[..k], maxHeld))).ended
    {
      assert rounds[..n + 1][..n] == rounds[..n];
      SameState(q, maxHeld, malformed, net);
      malformed, net := OneRound(q, rounds[n], malformed, maxHeld, net);
      n := n + 1;
    }
  }

  lemma NothingYet(q: Sequencer, maxHeld: nat, rounds: seq<Round>)
    requires q.Valid() && q.Model() == Initial(1, maxHeld)
    ensures Received(q, maxHeld, NONE_REFUSED, []) && Seen(rounds[..0], maxHeld) == []
  {
    forall e: PacketError ensures e in NONE_REFUSED && NONE_REFUSED[e] == 0 {
      match e
      case TooShort =>
      case BlockOverrun =>
      case CountMismatch =>
      case EmptyMessage =>
      case SequenceOverflow =>
    }
  }

  lemma SameState(q: Sequencer, maxHeld: nat, malformed: Counts, net: seq<Net>)
    requires Received(q, maxHeld, malformed, net)
    ensures q.GapOpen() == After(1, maxHeld, EventsOf(net)).GapOpen()
    ensures q.ended == After(1, maxHeld, EventsOf(net)).ended
  {
    hide After, EventsOf, Counted, Sequencer.Valid;
  }

  // ---- End to end ----

  /** The sender's messages as an endless stream; the numbers beyond them are never looked at. */
  ghost function StreamOf(messages: seq<Message>): Stream {
    (n: nat) => if 1 <= n <= |messages| then messages[n - 1] else []
  }

  /** A packet of the session that repeats the sender's messages under their own numbers. */
  predicate Genuine(a: Arrival, session: seq<byte>, messages: seq<Message>) {
    && a.session == session
    && 1 <= a.span.sequence && a.span.End() <= 1 + |messages|
    && a.span.messages == messages[a.span.sequence - 1..a.span.End() - 1]
  }

  lemma SentIsGenuine(datagrams: seq<seq<byte>>, session: seq<byte>, messages: seq<Message>, cuts: seq<nat>, i: nat)
    requires Packetised(datagrams, session, messages, cuts) && i < |datagrams|
    ensures DecodeSpec(datagrams[i]).Ok?
    ensures var a := ArrivalOf(DecodeSpec(datagrams[i]).packet);
      && Genuine(a, session, messages)
      && (i >= |datagrams| - 3 ==> a.end && a.span.End() == 1 + |messages|)
  {
    hide Encode, DecodeSpec, MessagesOf, Decoded;
    if i < |datagrams| - 3 {
      var data := datagrams[..|datagrams| - 3];
      assert IsPart(data[i], session, messages, cuts[i], cuts[i + 1]);
      DecodeOfEncode(session, 1 + cuts[i], cuts[i + 1] - cuts[i], messages[cuts[i]..cuts[i + 1]]);
    } else {
      DecodeOfEncode(session, 1 + |messages|, END_OF_SESSION, []);
    }
  }

  /** Every packet of the session is genuine, and no other session's came first. */
  ghost predicate AllGenuine(es: seq<Event>, session: seq<byte>, messages: seq<Message>) {
    && (forall i | 0 <= i < |es| && es[i].Receive? && es[i].a.session == session :: Genuine(es[i].a, session, messages))
    && (SessionOf(es) == None || SessionOf(es) == Some(session))
  }

  lemma {:induction false} NetIsGenuine(net: seq<Net>, datagrams: seq<seq<byte>>, session: seq<byte>,
                                       messages: seq<Message>, cuts: seq<nat>)
    requires Packetised(datagrams, session, messages, cuts) && FromSession(net, session, datagrams)
    ensures forall e | e in EventsOf(net) && e.Receive? && e.a.session == session :: Genuine(e.a, session, messages)
  {
    hide Packetised, Genuine, DecodeSpec;
    if net != [] {
      NetIsGenuine(net[..|net| - 1], datagrams, session, messages, cuts);
      var n := net[|net| - 1];
      if n.Datagram? && n.bytes in datagrams {
        var i :| 0 <= i < |datagrams| && datagrams[i] == n.bytes;
        SentIsGenuine(datagrams, session, messages, cuts, i);
      }
    }
  }

  /** What such a run keeps: the announced numbers are those of the session's packets, and none lies beyond the end. */
  lemma {:induction false} GenuineRun(maxHeld: nat, es: seq<Event>, session: seq<byte>, messages: seq<Message>)
    requires AllGenuine(es, session, messages)
    ensures Agrees(History(es), StreamOf(messages))
    ensures var s := After(1, maxHeld, es);
      && s.session == SessionOf(es)
      && s.known <= 1 + |messages|
      && (forall i | 0 <= i < |es| && es[i].Receive? && es[i].a.session == session ::
            es[i].a.span.End() <= s.known && (es[i].a.end ==> s.endOfSession))
  {
    if es != [] {
      var before, e := es[..|es| - 1], es[|es| - 1];
      GenuineBefore(es, session, messages);
      GenuineRun(maxHeld, before, session, messages);
      var s := After(1, maxHeld, before);
      hide Step;
      StepFrame(s, e);
      HistoryStep(es, s);
      assert e.Receive? && InSession(s, e.a) ==> e.a.session == session && Genuine(e.a, session, messages);
      assert e.Receive? && e.a.session == session ==> InSession(s, e.a);
      if e.Receive? && InSession(s, e.a) {
        GenuineAgrees(History(before), e.a, session, messages);
      }
      hide History, SessionOf, Agrees, Genuine;
      forall i | 0 <= i < |es| && es[i].Receive? && es[i].a.session == session
        ensures es[i].a.span.End() <= Step(s, e).known && (es[i].a.end ==> Step(s, e).endOfSession)
      {
        assert i < |before| ==> es[i] == before[i];
      }
    }
  }

  lemma GenuineBefore(es: seq<Event>, session: seq<byte>, messages: seq<Message>)
    requires es != [] && AllGenuine(es, session, messages)
    ensures AllGenuine(es[..|es| - 1], session, messages)
  {
    assert forall i | 0 <= i < |es| - 1 :: es[..|es| - 1][i] == es[i];
  }

  lemma GenuineAgrees(spans: seq<Span>, a: Arrival, session: seq<byte>, messages: seq<Message>)
    requires Agrees(spans, StreamOf(messages)) && Genuine(a, session, messages)
    ensures Agrees(spans + [a.span], StreamOf(messages))
  {
  }

  lemma {:induction false} EndReceived(net: seq<Net>, bytes: seq<byte>)
    requires bytes in Datagrams(net) && DecodeSpec(bytes).Ok?
    ensures Receive(ArrivalOf(DecodeSpec(bytes).packet)) in EventsOf(net)
  {
    hide DecodeSpec, ArrivalOf;
    if net[|net| - 1] != Datagram(bytes) {
      EndReceived(net[..|net| - 1], bytes);
    }
  }

  /** The session of the first datagram that decode() accepts. */
  function FirstSession(datagrams: seq<seq<byte>>): Option<seq<byte>> {
    if datagrams == [] then None
    else
      var before, last := FirstSession(datagrams[..|datagrams| - 1]), DecodeSpec(datagrams[|datagrams| - 1]);
      if before == None && last.Ok? then Some(last.packet.session) else before
  }

  /** The first accepted packet, if there is one, is of this session. */
  predicate OursFirst(datagrams: seq<seq<byte>>, session: seq<byte>) {
    FirstSession(datagrams) == None || FirstSession(datagrams) == Some(session)
  }

  lemma {:induction false} FirstOfPrefix(a: seq<seq<byte>>, b: seq<seq<byte>>)
    ensures FirstSession(a) == None || FirstSession(a + b) == FirstSession(a)
  {
    hide DecodeSpec;
    if b == [] {
      assert a + b == a;
    } else {
      assert (a + b)[..|a + b| - 1] == a + b[..|b| - 1];
      FirstOfPrefix(a, b[..|b| - 1]);
    }
  }

  lemma {:induction false} SessionHeard(net: seq<Net>)
    ensures SessionOf(EventsOf(net)) == FirstSession(Datagrams(net))
  {
    hide DecodeSpec, SessionOf, FirstSession, ArrivalOf;
    if net == [] {
      NoSession();
    } else {
      var before, n := net[..|net| - 1], net[|net| - 1];
      SessionHeard(before);
      SessionStep(EventsOf(before), Datagrams(before), n);
    }
  }

  lemma NoSession()
    ensures SessionOf([]) == None && FirstSession([]) == None
  {
  }

  lemma SessionStep(es: seq<Event>, ds: seq<seq<byte>>, n: Net)
    requires SessionOf(es) == FirstSession(ds)
    ensures SessionOf(es + EventOf(n)) ==
            FirstSession(ds + match n case Impatience => [] case Datagram(bytes) => [bytes])
  {
    hide DecodeSpec, SessionOf, FirstSession;
    assert es + [] == es && ds + [] == ds;
    match n
    case Impatience =>
      SessionOfOneMore(es, GiveUpGap);
    case Datagram(bytes) =>
      FirstOfOneMore(ds, bytes);
      match DecodeSpec(bytes)
      case Refused(_) =>
      case Ok(p) => SessionOfOneMore(es, Event.Receive(ArrivalOf(p)));
  }

  lemma SessionOfOneMore(es: seq<Event>, e: Event)
    ensures SessionOf(es + [e]) == if SessionOf(es) == None && e.Receive? then Some(e.a.session) else SessionOf(es)
  {
    assert (es + [e])[..|es|] == es;
  }

  lemma FirstOfOneMore(ds: seq<seq<byte>>, bytes: seq<byte>)
    ensures var r := DecodeSpec(bytes);
      FirstSession(ds + [bytes]) ==
      if FirstSession(ds) == None && r.Ok? then Some(r.packet.session) else FirstSession(ds)
  {
    hide DecodeSpec;
    assert (ds + [bytes])[..|ds|] == ds;
  }

  /**
   * For every schedule of loss, duplication, reordering and giving up, with other sessions' packets in between but
   * not first: what is delivered is a strictly increasing selection of the sender's numbered messages; once the
   * end-of-session packet is in and no gap is open, delivered and lost messages add up to the messages sent; and if
   * none was lost, all were delivered.
   */
  lemma EndToEnd(messages: seq<Message>, session: seq<byte>, datagrams: seq<seq<byte>>, cuts: seq<nat>, net: seq<Net>,
                 maxHeld: nat)
    requires Packetised(datagrams, session, messages, cuts) && FromSession(net, session, datagrams)
    requires OursFirst(Datagrams(net), session)
    ensures Faithful(After(1, maxHeld, EventsOf(net)), messages)
    ensures var s := After(1, maxHeld, EventsOf(net));
      datagrams[|datagrams| - 1] in Datagrams(net) && !s.GapOpen() ==> AccountedFor(s, messages)
  {
    hide *;
    AtLeastThree(datagrams, session, messages, cuts);
    var es, last := EventsOf(net), |datagrams| - 1;
    NetIsGenuine(net, datagrams, session, messages, cuts);
    EventsGenuine(net, session, messages);
    SentIsGenuine(datagrams, session, messages, cuts, last);
    Selection(maxHeld, es, session, messages);
    if datagrams[last] in Datagrams(net) && !After(1, maxHeld, es).GapOpen() {
      EndReceived(net, datagrams[last]);
      var k: nat :| k < |es| && es[k] == Receive(ArrivalOf(DecodeSpec(datagrams[last]).packet));
      IsOurs(ArrivalOf(DecodeSpec(datagrams[last]).packet), session, messages);
      Completion(maxHeld, es, session, messages, k);
    }
  }

  /** Deliveries ascend, and each is the sender's message of its number. */
  ghost predicate Faithful(s: State, messages: seq<Message>) {
    && (forall i, j | 0 <= i < j < |s.log| :: s.log[i].number < s.log[j].number)
    && (forall i | 0 <= i < |s.log| ::
          1 <= s.log[i].number <= |messages| && s.log[i].message == messages[s.log[i].number - 1])
  }

  predicate AccountedFor(s: State, messages: seq<Message>) {
    && |s.log| + s.stats.lost == |messages|
    && s.ended
    && (s.stats.lost == 0 ==> s.log == Numbered(1, messages))
  }

  lemma EventsGenuine(net: seq<Net>, session: seq<byte>, messages: seq<Message>)
    requires forall e | e in EventsOf(net) && e.Receive? && e.a.session == session :: Genuine(e.a, session, messages)
    requires OursFirst(Datagrams(net), session)
    ensures AllGenuine(EventsOf(net), session, messages)
  {
    hide Genuine, EventsOf, Datagrams, SessionOf, FirstSession;
    SessionHeard(net);
  }

  lemma IsOurs(a: Arrival, session: seq<byte>, messages: seq<Message>)
    requires Genuine(a, session, messages)
    ensures a.session == session
  {
  }

  // ---- The receiver from start to finish ----

  lemma {:induction false} OfferedPrefix(rounds: seq<Round>, n: nat) returns (rest: seq<seq<byte>>)
    requires n <= |rounds|
    ensures Offered(rounds) == Offered(rounds[..n]) + rest
    decreases |rounds|
  {
    if n == |rounds| {
      assert rounds[..n] == rounds;
      rest := [];
    } else {
      assert rounds[..|rounds| - 1][..n] == rounds[..n];
      var before := OfferedPrefix(rounds[..|rounds| - 1], n);
      rest := before + rounds[|rounds| - 1].datagrams;
    }
  }

  lemma {:induction false} Overheard(net: seq<Net>, session: seq<byte>, datagrams: seq<seq<byte>>)
    requires forall bytes | bytes in Datagrams(net) :: Unforged(bytes, session, datagrams)
    ensures FromSession(net, session, datagrams)
  {
    hide Unforged;
    if net != [] {
      Overheard(net[..|net| - 1], session, datagrams);
    }
  }

  /** The give-ups of the last loop, as further steps of the run. */
  lemma {:induction false} GivingUp(net: seq<Net>, maxHeld: nat, calls: nat) returns (all: seq<Net>)
    ensures After(1, maxHeld, EventsOf(all)) == GiveUpTimes(After(1, maxHeld, EventsOf(net)), calls)
    ensures Datagrams(all) == Datagrams(net)
  {
    hide After, EventsOf, Datagrams, GiveUp;
    if calls == 0 {
      all := net;
    } else {
      var before := GivingUp(net, maxHeld, calls - 1);
      NetStep(before, Impatience, maxHeld);
      OneMoreTime(After(1, maxHeld, EventsOf(net)), calls - 1);
      all := before + [Impatience];
    }
  }

  lemma RunIsSound(net: seq<Net>, maxHeld: nat, messages: seq<Message>, session: seq<byte>,
                   datagrams: seq<seq<byte>>, cuts: seq<nat>)
    requires Packetised(datagrams, session, messages, cuts) && FromSession(net, session, datagrams)
    requires OursFirst(Datagrams(net), session)
    ensures Inv(After(1, maxHeld, EventsOf(net)), 1, History(EventsOf(net)), StreamOf(messages))
  {
    hide *;
    NetIsGenuine(net, datagrams, session, messages, cuts);
    EventsGenuine(net, session, messages);
    GenuineRun(maxHeld, EventsOf(net), session, messages);
    RunInv(1, maxHeld, EventsOf(net), StreamOf(messages));
  }

  /**
   * mold_recv as a whole: its last loop leaves no gap open, so once the end of the session has arrived, with gaps
   * before it or without, every message sent was delivered or counted lost.
   */
  method MoldRecv(rounds: seq<Round>, maxHeld: nat, ghost messages: seq<Message>, ghost session: seq<byte>,
                  ghost datagrams: seq<seq<byte>>, ghost cuts: seq<nat>)
    returns (q: Sequencer, malformed: Counts, n: nat)
    requires Packetised(datagrams, session, messages, cuts)
    requires forall bytes | bytes in Offered(rounds) :: Unforged(bytes, session, datagrams)
    requires OursFirst(Offered(rounds), session)
    ensures fresh(q) && q.Valid() && q.held == [] && !q.Model().GapOpen() && Faithful(q.Model(), messages)
    ensures n <= |rounds| && (datagrams[|datagrams| - 1] in Offered(rounds[..n]) ==> AccountedFor(q.Model(), messages))
  {
    hide Packetised, Unforged, Offered, Seen, FirstSession, Datagrams, EventsOf, After, Inv, History, Counted,
      FromSession, Faithful, AccountedFor, GiveUpTimes, Sequencer.Valid;
    AtLeastThree(datagrams, session, messages, cuts);
    ghost var net;
    q, malformed, n, net := Receiver(rounds, maxHeld);
    SeenIsOffered(rounds[..n], maxHeld);
    ghost var rest := OfferedPrefix(rounds, n);
    FirstOfPrefix(Datagrams(net), rest);
    assert forall bytes | bytes in Datagrams(net) :: bytes in Offered(rounds);
    Overheard(net, session, datagrams);
    RunIsSound(net, maxHeld, messages, session, datagrams, cuts);
    var calls := CloseGaps(q, 1, History(EventsOf(net)), StreamOf(messages));
    ghost var all := GivingUp(net, maxHeld, calls);
    Overheard(all, session, datagrams);
    EndToEnd(messages, session, datagrams, cuts, all, maxHeld);
  }

  lemma AtLeastThree(datagrams: seq<seq<byte>>, session: seq<byte>, messages: seq<Message>, cuts: seq<nat>)
    requires Packetised(datagrams, session, messages, cuts)
    ensures |datagrams| >= 3
  {
  }

  lemma Selection(maxHeld: nat, es: seq<Event>, session: seq<byte>, messages: seq<Message>)
    requires AllGenuine(es, session, messages)
    ensures Faithful(After(1, maxHeld, es), messages)
  {
    hide After, History, AllGenuine, Agrees;
    GenuineRun(maxHeld, es, session, messages);
    RunInv(1, maxHeld, es, StreamOf(messages));
    InvFaithful(After(1, maxHeld, es), History(es), messages);
  }

  lemma InvFaithful(s: State, history: seq<Span>, messages: seq<Message>)
    requires Inv(s, 1, history, StreamOf(messages)) && s.known <= 1 + |messages|
    ensures Faithful(s, messages)
  {
    hide Carries, Agrees, Total;
  }

  lemma Completion(maxHeld: nat, es: seq<Event>, session: seq<byte>, messages: seq<Message>, k: nat)
    requires AllGenuine(es, session, messages)
    requires k < |es| && es[k].Receive? && es[k].a.session == session
    requires es[k].a.end && es[k].a.span.End() == 1 + |messages|
    requires !After(1, maxHeld, es).GapOpen()
    ensures AccountedFor(After(1, maxHeld, es), messages)
  {
    hide After, History, Agrees, Carries, Total, AllGenuine, Genuine;
    var stream, s := StreamOf(messages), After(1, maxHeld, es);
    GenuineRun(maxHeld, es, session, messages);
    DeliveredOnceInOrder(1, maxHeld, es, stream);
    NextIsBounded(maxHeld, es, stream);
    assert s.next == 1 + |messages|;
    if s.stats.lost == 0 {
      AllDelivered(maxHeld, es, messages);
    }
  }

  lemma AllDelivered(maxHeld: nat, es: seq<Event>, messages: seq<Message>)
    requires Agrees(History(es), StreamOf(messages))
    requires var s := After(1, maxHeld, es); s.stats.lost == 0 && s.next == 1 + |messages|
    ensures After(1, maxHeld, es).log == Numbered(1, messages)
  {
    hide After, History, Agrees, Carries, Numbered;
    var stream := StreamOf(messages);
    NextIsLeastMissing(1, maxHeld, es, stream);
    var got := seq(|messages|, i requires 0 <= i => stream(1 + i));
    assert got == messages;
  }

  lemma NextIsBounded(maxHeld: nat, es: seq<Event>, stream: Stream)
    requires Agrees(History(es), stream)
    ensures After(1, maxHeld, es).next <= Max(1, After(1, maxHeld, es).known)
  {
    RunInv(1, maxHeld, es, stream);
  }
}
