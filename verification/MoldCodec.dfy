/** MoldUDP64 datagrams: decode() and PacketWriter, and the format both speak. */
module MoldCodec {
  import opened BigEndian

  const SESSION_BYTES: nat := 10
  const HEADER_BYTES: nat := 20
  const HEARTBEAT: u16 := 0
  const END_OF_SESSION: u16 := 0xFFFF

  type Message = seq<byte>

  datatype PacketError = TooShort | BlockOverrun | CountMismatch | EmptyMessage | SequenceOverflow

  datatype Packet = Packet(session: seq<byte>, sequence: u64, count: u16, blocks: seq<byte>) {
    predicate Heartbeat() { count == HEARTBEAT }

    predicate EndOfSession() { count == END_OF_SESSION }

    function MessageCount(): u16 {
      if count == END_OF_SESSION then 0 else count
    }
  }

  datatype Result = Ok(packet: Packet) | Refused(error: PacketError)

  // ---- The format ----

  /** What a 16-bit length prefix can frame. */
  predicate Frameable(m: Message) {
    0 < |m| < 0x1_0000
  }

  predicate AllFrameable(ms: seq<Message>) {
    forall i | 0 <= i < |ms| :: Frameable(ms[i])
  }

  function Blocks(ms: seq<Message>): seq<byte>
    requires AllFrameable(ms)
  {
    if ms == [] then [] else Put16(|ms[0]|) + ms[0] + Blocks(ms[1..])
  }

  /** The datagram of a header and its messages. */
  function Encode(session: seq<byte>, sequence: u64, count: u16, ms: seq<Message>): seq<byte>
    requires AllFrameable(ms)
  {
    session + Put64(sequence) + Put16(count) + Blocks(ms)
  }

  /** What the writer can put in one datagram: `count` says how many messages, or marks the end. */
  predicate Encodable(session: seq<byte>, sequence: u64, count: u16, ms: seq<Message>) {
    && |session| == SESSION_BYTES
    && AllFrameable(ms)
    && |ms| == (if count == END_OF_SESSION then 0 else count)
    && sequence + |ms| <= MAX_U64
  }

  // ---- Splitting a block area into its messages ----

  datatype Split = Split(messages: seq<Message>, rest: seq<byte>) | Bad(error: PacketError) {
    function Prepend(ms: seq<Message>): Split {
      match this
      case Split(tail, rest) => Split(ms + tail, rest)
      case Bad(_) => this
    }
  }

  /** The first `n` messages of `b`, or why there are not that many. */
  function SplitBlocks(b: seq<byte>, n: nat): Split {
    if n == 0 then Split([], b)
    else if |b| < 2 then Bad(BlockOverrun)
    else
      var len := Be16(b, 0);
      if len == 0 then Bad(EmptyMessage)
      else if |b| - 2 < len then Bad(BlockOverrun)
      else SplitBlocks(b[2 + len..], n - 1).Prepend([b[2..2 + len]])
  }

  lemma {:induction false} SplitOfBlocks(ms: seq<Message>, rest: seq<byte>)
    requires AllFrameable(ms)
    ensures SplitBlocks(Blocks(ms) + rest, |ms|) == Split(ms, rest)
  {
    hide Put16;
    if ms == [] {
      assert Blocks(ms) + rest == rest;
    } else {
      var tail := Blocks(ms[1..]) + rest;
      assert Blocks(ms) + rest == Put16(|ms[0]|) + ms[0] + tail;
      hide Blocks, Be16;
      SplitOfBlocks(ms[1..], rest);
      SplitFirst(ms[0], tail, |ms| - 1);
      assert [ms[0]] + ms[1..] == ms;
    }
  }

  lemma SplitFirst(m: Message, tail: seq<byte>, n: nat)
    requires Frameable(m)
    ensures SplitBlocks(Put16(|m|) + m + tail, n + 1) == SplitBlocks(tail, n).Prepend([m])
  {
    hide Put16;
    var b := Put16(|m|) + m + tail;
    assert b[2..2 + |m|] == m && b[2 + |m|..] == tail;
    PrefixRead(Put16(|m|), m + tail);
    assert b == Put16(|m|) + (m + tail);
  }

  lemma PrefixRead(prefix: seq<byte>, more: seq<byte>)
    requires |prefix| == 2
    ensures Be16(prefix + more, 0) == Be16(prefix, 0)
  {
  }

  lemma NoBlocks()
    ensures Blocks([]) == []
  {
  }

  lemma BlocksPrepend(m: Message, ms: seq<Message>)
    requires AllFrameable(ms) && Frameable(m)
    ensures AllFrameable([m] + ms)
    ensures Blocks([m] + ms) == Put16(|m|) + m + Blocks(ms)
  {
    assert ([m] + ms)[1..] == ms;
  }

  /** Putting the first message of an area back in front of the others. */
  lemma FirstBlock(b: seq<byte>, ms: seq<Message>, rest: seq<byte>)
    requires |b| >= 2 && 0 < Be16(b, 0) && 2 + Be16(b, 0) <= |b|
    requires AllFrameable(ms) && b[2 + Be16(b, 0)..] == Blocks(ms) + rest
    ensures var all := [b[2..2 + Be16(b, 0)]] + ms;
      AllFrameable(all) && b == Blocks(all) + rest
  {
    hide Be16, Blocks, Put16;
    BlocksPrepend(b[2..2 + Be16(b, 0)], ms);
    Put16Be16(b, 0);
    Regroup(b, Be16(b, 0), Blocks(ms), rest);
  }

  lemma {:induction false} BlocksOfSplit(b: seq<byte>, n: nat)
    requires SplitBlocks(b, n).Split?
    ensures var s := SplitBlocks(b, n);
      AllFrameable(s.messages) && |s.messages| == n && Blocks(s.messages) + s.rest == b
  {
    hide Put16, Be16;
    if n == 0 {
      assert Blocks([]) + b == b;
    } else {
      hide Blocks;
      var len := Be16(b, 0);
      var m, after := b[2..2 + len], b[2 + len..];
      var tail := SplitBlocks(after, n - 1);
      BlocksOfSplit(after, n - 1);
      FirstBlock(b, tail.messages, tail.rest);
    }
  }

  /** One more message at the end, as add() appends it. */
  lemma {:induction false} BlocksAppend(ms: seq<Message>, m: Message)
    requires AllFrameable(ms) && Frameable(m)
    ensures AllFrameable(ms + [m])
    ensures Blocks(ms + [m]) == Blocks(ms) + Put16(|m|) + m
  {
    hide Put16;
    if ms == [] {
      assert ms + [m] == [m] + ms;
      BlocksPrepend(m, ms);
    } else {
      assert (ms + [m])[1..] == ms[1..] + [m];
      BlocksAppend(ms[1..], m);
    }
  }

  /** The split of a whole area is the message at the front and the split of what follows it. */
  lemma PrependPrepend(s: Split, a: seq<Message>, b: seq<Message>)
    ensures s.Prepend(b).Prepend(a) == s.Prepend(a + b)
  {
    if s.Split? {
      assert a + (b + s.messages) == a + b + s.messages;
    }
  }

  /** The split from `offset` on, read in place. */
  lemma SplitAt(b: seq<byte>, offset: nat, n: nat)
    requires n > 0 && offset <= |b|
    ensures SplitBlocks(b[offset..], n) ==
      if |b| - offset < 2 then Bad(BlockOverrun)
      else
        var len := Be16(b, offset);
        if len == 0 then Bad(EmptyMessage)
        else if |b| - offset - 2 < len then Bad(BlockOverrun)
        else SplitBlocks(b[offset + 2 + len..], n - 1).Prepend([b[offset + 2..offset + 2 + len]])
  {
    var rest := b[offset..];
    if |rest| >= 2 {
      assert rest[0] == b[offset] && rest[1] == b[offset + 1];
      var len := Be16(b, offset);
      assert Be16(rest, 0) == len;
      if 0 < len <= |rest| - 2 {
        assert rest[2 + len..] == b[offset + 2 + len..];
        assert rest[2..2 + len] == b[offset + 2..offset + 2 + len];
      }
    }
  }

  // ---- decode() ----

  /** Session, sequence, count and block area of a datagram at least as long as the header. */
  function HeaderOf(d: seq<byte>): Packet
    requires |d| >= HEADER_BYTES
  {
    Packet(d[..SESSION_BYTES], Be64(d, SESSION_BYTES), Be16(d, SESSION_BYTES + 8), d[HEADER_BYTES..])
  }

  function DecodeSpec(d: seq<byte>): Result {
    if |d| < HEADER_BYTES then Refused(TooShort)
    else
      var p := HeaderOf(d);
      if p.sequence > MAX_U64 - p.MessageCount() then Refused(SequenceOverflow)
      else
        match SplitBlocks(p.blocks, p.MessageCount())
        case Bad(e) => Refused(e)
        case Split(_, rest) => if rest == [] then Ok(p) else Refused(CountMismatch)
  }

  method Decode(d: seq<byte>) returns (r: Result)
    ensures r == DecodeSpec(d)
  {
    if |d| < HEADER_BYTES {
      return Refused(TooShort);
    }
    var p := HeaderOf(d);
    if p.sequence > MAX_U64 - p.MessageCount() {
      return Refused(SequenceOverflow);
    }
    var offset: nat := 0;
    ghost var done: seq<Message> := [];
    ghost var whole := SplitBlocks(p.blocks, p.MessageCount());
    for i := 0 to p.MessageCount()
      invariant offset <= |p.blocks|
      invariant whole == SplitBlocks(p.blocks[offset..], p.MessageCount() - i).Prepend(done)
    {
      SplitAt(p.blocks, offset, p.MessageCount() - i);
      if |p.blocks| - offset < 2 {
        return Refused(BlockOverrun);
      }
      var len := Be16(p.blocks, offset);
      if len == 0 {
        return Refused(EmptyMessage);
      }
      if |p.blocks| - offset - 2 < len {
        return Refused(BlockOverrun);
      }
      ghost var m := p.blocks[offset + 2..offset + 2 + len];
      PrependPrepend(SplitBlocks(p.blocks[offset + 2 + len..], p.MessageCount() - i - 1), done, [m]);
      done := done + [m];
      offset := offset + 2 + len;
    }
    if offset != |p.blocks| {
      return Refused(CountMismatch);
    }
    return Ok(p);
  }

  /** A block area that is exactly `n` messages. */
  predicate Exact(blocks: seq<byte>, n: nat) {
    SplitBlocks(blocks, n).Split? && SplitBlocks(blocks, n).rest == []
  }

  function MessagesIn(blocks: seq<byte>, n: nat): seq<Message> {
    match SplitBlocks(blocks, n)
    case Split(ms, _) => ms
    case Bad(_) => []
  }

  /** A packet that passed decode(): the block area is exactly its messages, and no number wraps. */
  predicate Decoded(p: Packet) {
    && |p.session| == SESSION_BYTES
    && Exact(p.blocks, p.MessageCount())
    && p.sequence + p.MessageCount() <= MAX_U64
  }

  function MessagesOf(p: Packet): seq<Message> {
    MessagesIn(p.blocks, p.MessageCount())
  }

  /** What the writer writes is accepted and comes back as it went in. */
  lemma DecodeOfEncode(session: seq<byte>, sequence: u64, count: u16, ms: seq<Message>)
    requires Encodable(session, sequence, count, ms)
    ensures var r := DecodeSpec(Encode(session, sequence, count, ms));
      && r == Ok(Packet(session, sequence, count, Blocks(ms)))
      && Decoded(r.packet) && MessagesOf(r.packet) == ms
  {
    hide Put16, Put64;
    var d := Encode(session, sequence, count, ms);
    assert d[SESSION_BYTES..SESSION_BYTES + 8] == Put64(sequence);
    assert d[SESSION_BYTES + 8..HEADER_BYTES] == Put16(count);
    Be64Slice(d, SESSION_BYTES);
    assert Be16(d, SESSION_BYTES + 8) == Be16(d[SESSION_BYTES + 8..HEADER_BYTES], 0);
    assert d[..SESSION_BYTES] == session;
    assert d[HEADER_BYTES..] == Blocks(ms);
    SplitOfBlocks(ms, []);
    assert Blocks(ms) + [] == Blocks(ms);
  }

  lemma Be64Slice(d: seq<byte>, at: nat)
    requires at + 8 <= |d|
    ensures Be64(d, at) == Be64(d[at..at + 8], 0)
  {
    var s := d[at..at + 8];
    assert forall k | 0 <= k < 8 :: s[k] == d[at + k];
    assert s[0] == d[at] && s[1] == d[at + 1] && s[2] == d[at + 2] && s[3] == d[at + 3];
    assert s[4] == d[at + 4] && s[5] == d[at + 5] && s[6] == d[at + 6] && s[7] == d[at + 7];
  }

  lemma HeaderBytes(d: seq<byte>)
    requires |d| >= HEADER_BYTES
    ensures var p := HeaderOf(d); d[..HEADER_BYTES] == p.session + Put64(p.sequence) + Put16(p.count)
  {
    Put64Be64(d, SESSION_BYTES);
    Put16Be16(d, SESSION_BYTES + 8);
    var at := SESSION_BYTES + 8;
    assert d[..HEADER_BYTES] == d[..SESSION_BYTES] + d[SESSION_BYTES..at] + d[at..HEADER_BYTES];
  }

  /** An accepted datagram is, byte for byte, what the writer writes for its decoded contents. */
  lemma EncodeOfDecode(d: seq<byte>)
    requires DecodeSpec(d).Ok?
    ensures var p := DecodeSpec(d).packet;
      && Decoded(p)
      && Encodable(p.session, p.sequence, p.count, MessagesOf(p))
      && d == Encode(p.session, p.sequence, p.count, MessagesOf(p))
  {
    var p := DecodeSpec(d).packet;
    BlocksOfSplit(p.blocks, p.MessageCount());
    assert Blocks(MessagesOf(p)) + [] == Blocks(MessagesOf(p));
    HeaderBytes(d);
    assert d == d[..HEADER_BYTES] + d[HEADER_BYTES..];
  }

  /** Exactly the writer's datagrams are accepted: nothing malformed passes, nothing well formed is refused. */
  lemma AcceptedIffEncoded(d: seq<byte>)
    ensures DecodeSpec(d).Ok? <==>
      exists session, sequence, count, ms :: Encodable(session, sequence, count, ms)
          && d == Encode(session, sequence, count, ms)
  {
    if DecodeSpec(d).Ok? {
      EncodeOfDecode(d);
    }
    forall session, sequence, count, ms | Encodable(session, sequence, count, ms)
        && d == Encode(session, sequence, count, ms)
      ensures DecodeSpec(d).Ok?
    {
      DecodeOfEncode(session, sequence, count, ms);
    }
  }

  // ---- Why a datagram is refused ----

  /** What cannot be the next message, and why. */
  predicate Blocked(rest: seq<byte>, e: PacketError) {
    match e
    case EmptyMessage => |rest| >= 2 && rest[0] == 0 && rest[1] == 0
    case BlockOverrun => |rest| < 2 || |rest| < 2 + Be16(rest, 0)
    case _ => false
  }

  /** Fewer than `n` whole messages, then something that cannot be the next one. */
  ghost predicate BlockedWithin(b: seq<byte>, n: nat, e: PacketError) {
    exists ms, rest :: AllFrameable(ms) && |ms| < n && b == Blocks(ms) + rest && Blocked(rest, e)
  }

  /** `n` whole messages with more bytes behind them. */
  ghost predicate BytesLeftOver(b: seq<byte>, n: nat) {
    exists ms, rest :: AllFrameable(ms) && |ms| == n && b == Blocks(ms) + rest && rest != []
  }

  lemma {:induction false} SplitIsBlocked(ms: seq<Message>, rest: seq<byte>, n: nat, e: PacketError)
    requires AllFrameable(ms) && |ms| < n && Blocked(rest, e)
    ensures SplitBlocks(Blocks(ms) + rest, n) == Bad(e)
  {
    hide Put16;
    if ms == [] {
      assert Blocks(ms) + rest == rest;
    } else {
      var tail := Blocks(ms[1..]) + rest;
      assert Blocks(ms) + rest == Put16(|ms[0]|) + ms[0] + tail;
      hide Blocks, Be16, Blocked;
      SplitIsBlocked(ms[1..], rest, n - 1, e);
      SplitFirst(ms[0], tail, n - 1);
    }
  }

  /** The first message is not whole. */
  lemma BlockedAtOnce(b: seq<byte>, n: nat)
    requires SplitBlocks(b, n).Bad? && (|b| < 2 || Be16(b, 0) == 0 || |b| < 2 + Be16(b, 0))
    ensures n > 0 && Blocked(b, SplitBlocks(b, n).error)
  {
  }

  lemma {:induction false} BadIsBlocked(b: seq<byte>, n: nat) returns (ms: seq<Message>, rest: seq<byte>)
    requires SplitBlocks(b, n).Bad?
    ensures AllFrameable(ms) && |ms| < n && b == Blocks(ms) + rest && Blocked(rest, SplitBlocks(b, n).error)
  {
    hide Put16, Be16, Blocked, Blocks, SplitBlocks;
    if |b| < 2 || Be16(b, 0) == 0 || |b| < 2 + Be16(b, 0) {
      BlockedAtOnce(b, n);
      NoBlocks();
      ms, rest := [], b;
    } else {
      BlockedLater(b, n);
      var m, after := b[2..2 + Be16(b, 0)], b[2 + Be16(b, 0)..];
      ms, rest := BadIsBlocked(after, n - 1);
      FirstBlock(b, ms, rest);
      ms := [m] + ms;
    }
  }

  /** The first message is whole, so it is a later one that is not. */
  lemma BlockedLater(b: seq<byte>, n: nat)
    requires SplitBlocks(b, n).Bad? && |b| >= 2 && 0 < Be16(b, 0) && 2 + Be16(b, 0) <= |b|
    ensures n > 0 && SplitBlocks(b[2 + Be16(b, 0)..], n - 1) == SplitBlocks(b, n)
  {
    hide Be16;
  }

  lemma BlockedIff(b: seq<byte>, n: nat, e: PacketError)
    ensures SplitBlocks(b, n) == Bad(e) <==> BlockedWithin(b, n, e)
    ensures SplitBlocks(b, n).Split? && SplitBlocks(b, n).rest != [] <==> BytesLeftOver(b, n)
  {
    hide SplitBlocks, Blocks, Blocked;
    if SplitBlocks(b, n).Bad? {
      var ms, rest := BadIsBlocked(b, n);
    } else {
      BlocksOfSplit(b, n);
    }
    forall ms, rest | AllFrameable(ms) && |ms| < n && b == Blocks(ms) + rest && Blocked(rest, e)
      ensures SplitBlocks(b, n) == Bad(e)
    {
      SplitIsBlocked(ms, rest, n, e);
    }
    forall ms, rest | AllFrameable(ms) && |ms| == n && b == Blocks(ms) + rest
      ensures SplitBlocks(b, n) == Split(ms, rest)
    {
      SplitOfBlocks(ms, rest);
    }
  }

  /** Each error says exactly what is wrong with the datagram; the header is judged first. */
  lemma RefusedBecause(d: seq<byte>)
    ensures DecodeSpec(d) == Refused(TooShort) <==> |d| < HEADER_BYTES
    ensures |d| >= HEADER_BYTES ==>
      var p := HeaderOf(d);
      var wraps := p.sequence + p.MessageCount() > MAX_U64;
      && (DecodeSpec(d) == Refused(SequenceOverflow) <==> wraps)
      && (DecodeSpec(d) == Refused(BlockOverrun) <==>
            !wraps && BlockedWithin(p.blocks, p.MessageCount(), BlockOverrun))
      && (DecodeSpec(d) == Refused(EmptyMessage) <==>
            !wraps && BlockedWithin(p.blocks, p.MessageCount(), EmptyMessage))
      && (DecodeSpec(d) == Refused(CountMismatch) <==> !wraps && BytesLeftOver(p.blocks, p.MessageCount()))
  {
    hide SplitBlocks, BlockedWithin, BytesLeftOver;
    if |d| >= HEADER_BYTES {
      var p := HeaderOf(d);
      BlockedIff(p.blocks, p.MessageCount(), BlockOverrun);
      BlockedIff(p.blocks, p.MessageCount(), EmptyMessage);
      NotBlocked(p.blocks, p.MessageCount());
    }
  }

  /** Cutting messages up can go wrong in two ways only. */
  lemma NotBlocked(b: seq<byte>, n: nat)
    ensures SplitBlocks(b, n).Bad? ==> SplitBlocks(b, n).error in {BlockOverrun, EmptyMessage}
  {
    hide SplitBlocks, Blocks;
    if SplitBlocks(b, n).Bad? {
      var ms, rest := BadIsBlocked(b, n);
    }
  }

  // ---- PacketWriter ----

  function SessionName(name: seq<byte>): (s: seq<byte>)
    ensures |s| == SESSION_BYTES
    ensures forall i | 0 <= i < SESSION_BYTES :: s[i] == if i < |name| then name[i] else 0x20
  {
    if |name| < SESSION_BYTES then name + seq(SESSION_BYTES - |name|, _ => 0x20) else name[..SESSION_BYTES]
  }

  lemma PatchTail(b: seq<byte>, from: nat, at: nat, bytes: seq<byte>)
    requires from <= at && at + |bytes| <= |b|
    ensures Patched(b, at, bytes)[from..at + |bytes|] == b[from..at] + bytes
  {
  }

  lemma PatchedHeader(b: seq<byte>, header: seq<byte>, size: nat)
    requires |header| <= size <= |b|
    ensures Patched(b, 0, header)[..size] == header + b[|header|..size]
  {
  }

  class PacketWriter {
    const buffer: array<byte>
    const session: seq<byte>
    var sequence: u64
    var count: u16
    var size: nat
    ghost var added: seq<Message> // since the last Begin

    ghost predicate Valid()
      reads this, buffer
    {
      && |session| == SESSION_BYTES
      && AllFrameable(added)
      && |added| == count < END_OF_SESSION
      && HEADER_BYTES <= size <= buffer.Length
      && buffer[HEADER_BYTES..size] == Blocks(added)
    }

    constructor (buffer: array<byte>, name: seq<byte>)
      requires buffer.Length >= HEADER_BYTES
      ensures Valid() && this.buffer == buffer && session == SessionName(name)
      ensures sequence == 1 && added == []
    {
      this.buffer := buffer;
      session := SessionName(name);
      sequence, count, size, added := 1, 0, HEADER_BYTES, [];
    }

    method Begin(sequence: u64)
      requires buffer.Length >= HEADER_BYTES && |session| == SESSION_BYTES
      modifies this
      ensures Valid() && this.sequence == sequence && added == []
    {
      this.sequence, count, size, added := sequence, 0, HEADER_BYTES, [];
    }

    /** Appends a message, or appends nothing if it cannot be framed, counted or fitted. */
    method Add(m: Message) returns (ok: bool)
      requires Valid()
      modifies this, buffer
      ensures Valid() && sequence == old(sequence)
      ensures ok <==>
        Frameable(m) && |old(added)| < END_OF_SESSION as int - 1 &&
        HEADER_BYTES + |Blocks(old(added))| + 2 + |m| <= buffer.Length
      ensures added == if ok then old(added) + [m] else old(added)
    {
      hide Put16, Be16, Blocks, Patched;
      if |m| == 0 || |m| > 0xFFFF || count == END_OF_SESSION - 1 {
        return false;
      }
      if buffer.Length - size < 2 + |m| {
        return false;
      }
      BlocksAppend(added, m);
      PatchAfterPatch(buffer[..], size, Put16(|m|), m);
      PatchTail(buffer[..], HEADER_BYTES, size, Put16(|m|) + m);
      PutBe16(buffer, size, |m|);
      PutBytes(buffer, size + 2, m);
      assert buffer[HEADER_BYTES..size + 2 + |m|] == buffer[..][HEADER_BYTES..size + 2 + |m|];
      size := size + 2 + |m|;
      count := count + 1;
      added := added + [m];
      return true;
    }

    method Finish() returns (datagram: seq<byte>)
      requires Valid()
      modifies buffer
      ensures Valid()
      ensures datagram == Encode(session, sequence, count, added)
    {
      datagram := FinishWithCount(count);
    }

    /** A datagram without messages, for any count. */
    method Control(next: u64, count: u16) returns (datagram: seq<byte>)
      requires Valid()
      modifies this, buffer
      ensures Valid() && sequence == next && added == []
      ensures datagram == Encode(session, next, count, [])
    {
      Begin(next);
      datagram := FinishWithCount(count);
    }

    method FinishWithCount(count: u16) returns (datagram: seq<byte>)
      requires Valid()
      modifies buffer
      ensures Valid()
      ensures datagram == Encode(session, sequence, count, added)
    {
      hide Put64, Put16, Blocks;
      PatchAfterPatch(buffer[..], 0, session, Put64(sequence));
      PatchAfterPatch(buffer[..], 0, session + Put64(sequence), Put16(count));
      PutBytes(buffer, 0, session);
      PutBe64(buffer, SESSION_BYTES, sequence);
      PutBe16(buffer, SESSION_BYTES + 8, count);
      ghost var header := session + Put64(sequence) + Put16(count);
      assert buffer[..] == Patched(old(buffer[..]), 0, header);
      datagram := buffer[..size];
      PatchedHeader(old(buffer[..]), header, size);
      assert old(buffer[..])[HEADER_BYTES..size] == old(buffer[HEADER_BYTES..size]);
    }
  }
}
