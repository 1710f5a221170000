/** ItchReader: length-prefixed messages out of a refillable buffer, equal to a plain parse of the whole input. */
module ItchReaders {
  import opened BigEndian

  /** How long a message of this type is; 0 means there is no such type. */
  function MessageLength(kind: char): (n: nat)
    ensures n <= 50
  {
    match kind
    case 'S' => 12 case 'R' => 39 case 'H' => 25 case 'Y' => 20 case 'L' => 26 case 'V' => 35
    case 'W' => 12 case 'K' => 28 case 'J' => 35 case 'h' => 21 case 'A' => 36 case 'F' => 40
    case 'E' => 31 case 'C' => 36 case 'X' => 23 case 'D' => 19 case 'U' => 35 case 'P' => 44
    case 'Q' => 40 case 'B' => 19 case 'I' => 50 case 'N' => 20 case 'O' => 48
    case _ => 0
  }

  // ---- The plain parse ----

  type Frame = seq<byte>

  datatype Parsed = Parsed(frames: seq<Frame>, leftover: seq<byte>)

  /** Every whole frame, and the bytes left over. */
  function Parse(b: seq<byte>): (p: Parsed)
    ensures |p.leftover| <= |b|
  {
    if |b| < 2 || |b| < 2 + Be16(b, 0) then Parsed([], b)
    else
      var len := Be16(b, 0);
      var tail := Parse(b[2 + len..]);
      Parsed([b[2..2 + len]] + tail.frames, tail.leftover)
  }

  predicate ShortEnough(frames: seq<Frame>) {
    forall i | 0 <= i < |frames| :: |frames[i]| < 0x1_0000
  }

  /** The bytes of the frames, each behind its length. */
  function Framing(frames: seq<Frame>): seq<byte>
    requires ShortEnough(frames)
  {
    if frames == [] then [] else Put16(|frames[0]|) + frames[0] + Framing(frames[1..])
  }

  /** No whole frame to begin with. */
  predicate Incomplete(b: seq<byte>) {
    |b| < 2 || |b| < 2 + Be16(b, 0)
  }

  lemma FramingFirst(m: Frame, frames: seq<Frame>)
    requires |m| < 0x1_0000 && ShortEnough(frames)
    ensures ShortEnough([m] + frames) && Framing([m] + frames) == Put16(|m|) + m + Framing(frames)
  {
    assert ([m] + frames)[1..] == frames;
  }

  lemma ParseUnfolds(b: seq<byte>)
    ensures Parse(b) ==
      if Incomplete(b) then Parsed([], b)
      else
        var p := Parse(b[2 + Be16(b, 0)..]);
        Parsed([b[2..2 + Be16(b, 0)]] + p.frames, p.leftover)
  {
  }

  /** A frame put back in front of what the rest was. */
  lemma FramedBack(b: seq<byte>, frames: seq<Frame>, leftover: seq<byte>)
    requires !Incomplete(b) && ShortEnough(frames) && Framing(frames) + leftover == b[2 + Be16(b, 0)..]
    ensures var all := [b[2..2 + Be16(b, 0)]] + frames;
      ShortEnough(all) && Framing(all) + leftover == b
  {
    hide Be16, Put16, Framing;
    FramingFirst(b[2..2 + Be16(b, 0)], frames);
    Put16Be16(b, 0);
    Regroup(b, Be16(b, 0), Framing(frames), leftover);
  }

  /** The parse is the framing undone: putting the frames back gives the input, with no whole frame left over. */
  lemma {:induction false} FramingOfParse(b: seq<byte>)
    ensures var p := Parse(b); ShortEnough(p.frames) && Framing(p.frames) + p.leftover == b && Incomplete(p.leftover)
    decreases |b|
  {
    hide Be16, Put16, Framing, Parse;
    ParseUnfolds(b);
    if Incomplete(b) {
      NothingFramed(b);
    } else {
      var after := b[2 + Be16(b, 0)..];
      FramingOfParse(after);
      FramedBack(b, Parse(after).frames, Parse(after).leftover);
    }
  }

  lemma NothingFramed(b: seq<byte>)
    ensures Framing([]) == [] && [] + b == b
  {
  }

  /** And any frames, empty ones included, are found again in their framing. */
  lemma {:induction false} ParseOfFraming(frames: seq<Frame>, leftover: seq<byte>)
    requires ShortEnough(frames) && Incomplete(leftover)
    ensures Parse(Framing(frames) + leftover) == Parsed(frames, leftover)
  {
    hide Be16, Put16, Framing;
    if frames == [] {
      NothingFramed(leftover);
    } else {
      assert frames == [frames[0]] + frames[1..];
      FramingFirst(frames[0], frames[1..]);
      ParseOfFraming(frames[1..], leftover);
      ParseFirst(frames[0], Framing(frames[1..]), leftover);
    }
  }

  lemma ParseFirst(m: Frame, framed: seq<byte>, leftover: seq<byte>)
    requires |m| < 0x1_0000
    ensures var p := Parse(framed + leftover);
      Parse(Put16(|m|) + m + framed + leftover) == Parsed([m] + p.frames, p.leftover)
  {
    hide Put16;
    var b := Put16(|m|) + m + framed + leftover;
    assert b[0] == Put16(|m|)[0] && b[1] == Put16(|m|)[1];
    assert b[2..2 + |m|] == m && b[2 + |m|..] == framed + leftover;
  }

  datatype Verdict = Good | Unknown | Mismatch

  function Judge(m: Frame): Verdict {
    if m == [] then Mismatch
    else if MessageLength(m[0] as char) == 0 then Unknown
    else if MessageLength(m[0] as char) != |m| then Mismatch
    else Good
  }

  function WellFormed(frames: seq<Frame>): seq<Frame> {
    if frames == [] then []
    else (if Judge(frames[0]) == Good then [frames[0]] else []) + WellFormed(frames[1..])
  }

  function CountOf(frames: seq<Frame>, v: Verdict): nat {
    if frames == [] then 0 else (if Judge(frames[0]) == v then 1 else 0) + CountOf(frames[1..], v)
  }

  /** Every frame is returned, or skipped and counted once. */
  lemma {:induction false} EveryFrameIsCounted(frames: seq<Frame>)
    ensures |frames| == |WellFormed(frames)| + CountOf(frames, Unknown) + CountOf(frames, Mismatch)
  {
    if frames != [] {
      EveryFrameIsCounted(frames[1..]);
    }
  }

  // ---- What is returned and what is skipped ----

  /** Safe to decode: as long as its type says. */
  predicate Safe(m: Frame) {
    m != [] && |m| == MessageLength(m[0] as char)
  }

  /** How many frames are of a type that there is not. */
  ghost function OfNoType(frames: seq<Frame>): nat {
    |set i | 0 <= i < |frames| && frames[i] != [] && MessageLength(frames[i][0] as char) == 0|
  }

  /** How many frames are empty, or of a known type but not as long as it says. */
  ghost function OfWrongLength(frames: seq<Frame>): nat {
    |set i | 0 <= i < |frames| && !Safe(frames[i]) && (frames[i] == [] || MessageLength(frames[i][0] as char) != 0)|
  }

  /** `all` are the safe frames, in order: those at the places `at`. */
  ghost predicate Picked(all: seq<Frame>, frames: seq<Frame>, at: seq<nat>) {
    && |at| == |all|
    && (forall k | 0 <= k < |at| :: at[k] < |frames| && all[k] == frames[at[k]])
    && (forall j, k | 0 <= j < k < |at| :: at[j] < at[k])
    && (forall i: nat | i < |frames| :: i in at <==> Safe(frames[i]))
  }

  /** A frame more at the end. */
  lemma {:induction false} LastFrame(frames: seq<Frame>, m: Frame, v: Verdict)
    ensures WellFormed(frames + [m]) == WellFormed(frames) + if Judge(m) == Good then [m] else []
    ensures CountOf(frames + [m], v) == CountOf(frames, v) + if Judge(m) == v then 1 else 0
  {
    hide Judge;
    if frames == [] {
      assert [] + [m] == [m] && [m][1..] == [];
    } else {
      assert (frames + [m])[1..] == frames[1..] + [m];
      LastFrame(frames[1..], m, v);
    }
  }

  lemma {:induction false} WellFormedIsPicked(frames: seq<Frame>) returns (at: seq<nat>)
    ensures Picked(WellFormed(frames), frames, at)
  {
    hide WellFormed, MessageLength;
    if frames == [] {
      NoFrames();
      return [];
    }
    var n := |frames| - 1;
    assert frames == frames[..n] + [frames[n]];
    LastFrame(frames[..n], frames[n], Good);
    at := WellFormedIsPicked(frames[..n]);
    at := PickedOneMore(WellFormed(frames[..n]), frames[..n], at, frames[n]);
  }

  lemma PickedOneMore(all: seq<Frame>, frames: seq<Frame>, at: seq<nat>, m: Frame) returns (more: seq<nat>)
    requires Picked(all, frames, at)
    ensures Picked(all + (if Safe(m) then [m] else []), frames + [m], more)
  {
    hide Safe;
    assert |frames| !in at by {
      if k :| 0 <= k < |at| && at[k] == |frames| {
      }
    }
    more := at + if Safe(m) then [|frames|] else [];
  }

  /** The places of the frames of one verdict. */
  ghost function PlacesOf(frames: seq<Frame>, v: Verdict): set<nat> {
    set i: nat | i < |frames| && Judge(frames[i]) == v
  }

  lemma {:induction false} CountOfPlaces(frames: seq<Frame>, v: Verdict)
    ensures CountOf(frames, v) == |PlacesOf(frames, v)|
  {
    hide Judge, WellFormed, PlacesOf;
    if frames == [] {
      NoPlaces(v);
    } else {
      var n := |frames| - 1;
      assert frames == frames[..n] + [frames[n]];
      LastFrame(frames[..n], frames[n], v);
      CountOfPlaces(frames[..n], v);
      LastPlace(frames[..n], frames[n], v);
    }
  }

  lemma NoPlaces(v: Verdict)
    ensures PlacesOf([], v) == {}
  {
  }

  lemma LastPlace(frames: seq<Frame>, m: Frame, v: Verdict)
    ensures |PlacesOf(frames + [m], v)| == |PlacesOf(frames, v)| + if Judge(m) == v then 1 else 0
  {
    hide Judge;
    assert PlacesOf(frames + [m], v) == PlacesOf(frames, v) + if Judge(m) == v then {|frames|} else {};
  }

  /** The counts by verdict are counts of frames that anyone can check. */
  lemma CountsMean(frames: seq<Frame>)
    ensures CountOf(frames, Unknown) == OfNoType(frames) && CountOf(frames, Mismatch) == OfWrongLength(frames)
  {
    hide MessageLength, CountOf;
    CountOfPlaces(frames, Unknown);
    CountOfPlaces(frames, Mismatch);
    assert PlacesOf(frames, Unknown) ==
        set i | 0 <= i < |frames| && frames[i] != [] && MessageLength(frames[i][0] as char) == 0;
    assert PlacesOf(frames, Mismatch) == set i | 0 <= i < |frames| && !Safe(frames[i])
        && (frames[i] == [] || MessageLength(frames[i][0] as char) != 0);
  }

  // ---- One call of next() ----

  datatype Counters = Counters(messages: nat, bytes: nat, unknownTypes: nat, lengthMismatches: nat)

  /** An empty message marks the end of the input. */
  datatype Outcome = Outcome(message: Frame, rest: seq<byte>, counters: Counters, truncated: bool)

  function Framed(c: Counters, m: Frame): Counters {
    var c1 := c.(messages := c.messages + 1, bytes := c.bytes + 2 + |m|);
    match Judge(m)
    case Good => c1
    case Unknown => c1.(unknownTypes := c1.unknownTypes + 1)
    case Mismatch => c1.(lengthMismatches := c1.lengthMismatches + 1)
  }

  function NextOf(b: seq<byte>, c: Counters, truncated: bool): Outcome
    decreases |b|
  {
    if |b| < 2 then Outcome([], b, c, |b| > 0)
    else
      var len := Be16(b, 0);
      if |b| < 2 + len then Outcome([], b, c, true)
      else
        var m := b[2..2 + len];
        if Judge(m) == Good then Outcome(m, b[2 + len..], Framed(c, m), truncated)
        else NextOf(b[2 + len..], Framed(c, m), truncated)
  }

  lemma NoFrames()
    ensures WellFormed([]) == [] && CountOf([], Unknown) == 0 && CountOf([], Mismatch) == 0
  {
  }

  lemma OneFrameMore(m: Frame, frames: seq<Frame>)
    ensures WellFormed([m] + frames) == (if Judge(m) == Good then [m] else []) + WellFormed(frames)
    ensures CountOf([m] + frames, Unknown) == CountOf(frames, Unknown) + if Judge(m) == Unknown then 1 else 0
    ensures CountOf([m] + frames, Mismatch) == CountOf(frames, Mismatch) + if Judge(m) == Mismatch then 1 else 0
  {
    assert ([m] + frames)[1..] == frames;
  }

  /** One call moves the plain parse forward: to the next well-formed frame, or to its end. */
  lemma {:induction false} NextIsParse(b: seq<byte>, c: Counters, truncated: bool)
    ensures var o, p := NextOf(b, c, truncated), Parse(b);
      var q := Parse(o.rest);
      && WellFormed(p.frames) == (if o.message == [] then [] else [o.message]) + WellFormed(q.frames)
      && p.leftover == q.leftover
      && c.messages + |p.frames| == o.counters.messages + |q.frames|
      && c.unknownTypes + CountOf(p.frames, Unknown) == o.counters.unknownTypes + CountOf(q.frames, Unknown)
      && c.lengthMismatches + CountOf(p.frames, Mismatch) == o.counters.lengthMismatches + CountOf(q.frames, Mismatch)
      && c.bytes + |b| == o.counters.bytes + |o.rest|
      && (if o.message == [] then q.frames == [] && o.rest == p.leftover && o.truncated == (p.leftover != [])
          else |o.rest| < |b| && o.truncated == truncated)
    decreases |b|
  {
    hide Be16, MessageLength, WellFormed, CountOf;
    NoFrames();
    if |b| >= 2 && |b| >= 2 + Be16(b, 0) {
      var m, after := b[2..2 + Be16(b, 0)], b[2 + Be16(b, 0)..];
      var frames := Parse(after).frames;
      OneFrameMore(m, frames);
      if Judge(m) != Good {
        NextIsParse(after, Framed(c, m), truncated);
      }
    }
  }

  /** From `b` to the outcome, unsafe frames were skipped and counted, and the first safe one is returned. */
  ghost predicate Skips(b: seq<byte>, c: Counters, o: Outcome, skipped: seq<Frame>) {
    && Parse(b).frames == skipped + (if o.message == [] then [] else [o.message]) + Parse(o.rest).frames
    && (forall m | m in skipped :: !Safe(m)) && (o.message == [] || Safe(o.message))
    && o.counters.unknownTypes == c.unknownTypes + CountOf(skipped, Unknown)
    && o.counters.lengthMismatches == c.lengthMismatches + CountOf(skipped, Mismatch)
  }

  lemma SkipsOneMore(b: seq<byte>, after: seq<byte>, c: Counters, m: Frame, o: Outcome, skipped: seq<Frame>)
    requires Skips(after, Framed(c, m), o, skipped) && Judge(m) != Good
    requires Parse(b).frames == [m] + Parse(after).frames
    ensures Skips(b, c, o, [m] + skipped)
  {
    hide Parse, CountOf, WellFormed, MessageLength;
    OneFrameMore(m, skipped);
  }

  lemma {:induction false} NextSkips(b: seq<byte>, c: Counters, truncated: bool) returns (skipped: seq<Frame>)
    ensures Skips(b, c, NextOf(b, c, truncated), skipped)
    decreases |b|
  {
    hide Be16, MessageLength, CountOf, WellFormed;
    NoFrames();
    skipped := [];
    if |b| >= 2 && |b| >= 2 + Be16(b, 0) {
      var m, after := b[2..2 + Be16(b, 0)], b[2 + Be16(b, 0)..];
      if Judge(m) != Good {
        hide Skips;
        var more := NextSkips(after, Framed(c, m), truncated);
        SkipsOneMore(b, after, c, m, NextOf(after, Framed(c, m), truncated), more);
        skipped := [m] + more;
      }
    }
  }

  // ---- The file and the reader ----

  /** What fread sees: the bytes not read yet. */
  class File {
    var rest: seq<byte>

    constructor (contents: seq<byte>)
      ensures rest == contents
    {
      rest := contents;
    }

    /** Any split of the input: at least one byte if there is any and room for it. */
    method Read(buffer: array<byte>, at: nat, max: nat) returns (n: nat)
      requires at + max <= buffer.Length
      modifies `rest, buffer
      ensures n <= max && n <= |old(rest)| && (n == 0 <==> max == 0 || old(rest) == [])
      ensures rest == old(rest)[n..] && buffer[..] == Patched(old(buffer[..]), at, old(rest)[..n])
    {
      var most := if max < |rest| then max else |rest|;
      n :| n <= most && (n == 0 <==> most == 0);
      PutBytes(buffer, at, rest[..n]);
      rest := rest[n..];
    }
  }

  /** Reading `n` bytes of the file behind what is buffered moves the border, not the bytes. */
  lemma Appended(before: seq<byte>, end: nat, rest: seq<byte>, n: nat)
    requires end + n <= |before| && n <= |rest|
    ensures Patched(before, end, rest[..n])[..end + n] + rest[n..] == before[..end] + rest
  {
    assert Patched(before, end, rest[..n])[..end + n] == before[..end] + rest[..n];
  }

  /** The length prefix of the bytes that remain is read in the buffer. */
  lemma SamePrefix(buffer: array<byte>, begin: nat, end: nat, rest: seq<byte>)
    requires begin + 2 <= end <= buffer.Length
    ensures Be16(buffer[begin..end] + rest, 0) == Be16(buffer[..], begin)
  {
  }

  /** Cutting a frame off the bytes that remain. */
  lemma Cut(buffer: array<byte>, begin: nat, end: nat, rest: seq<byte>, len: nat)
    requires begin + 2 + len <= end <= buffer.Length
    ensures var r := buffer[begin..end] + rest;
      && r[2..2 + len] == buffer[begin + 2..begin + 2 + len]
      && r[2 + len..] == buffer[begin + 2 + len..end] + rest
  {
    var head, m, tail := buffer[begin..begin + 2], buffer[begin + 2..begin + 2 + len], buffer[begin + 2 + len..end];
    assert buffer[begin..end] == head + m + tail;
    assert buffer[begin..end] + rest == head + m + (tail + rest);
  }

  lemma NextUnfolds(b: seq<byte>, c: Counters, truncated: bool)
    ensures NextOf(b, c, truncated) ==
      if |b| < 2 || |b| < 2 + Be16(b, 0) then Outcome([], b, c, b != [])
      else
        var m, after := b[2..2 + Be16(b, 0)], b[2 + Be16(b, 0)..];
        if Judge(m) == Good then Outcome(m, after, Framed(c, m), truncated) else NextOf(after, Framed(c, m), truncated)
  {
  }

  class ItchReader {
    const file: File
    var buffer: array<byte>
    var begin: nat
    var end: nat
    var eof: bool
    var truncated: bool
    var counters: Counters

    ghost predicate Valid()
      reads this, file
    {
      begin <= end <= buffer.Length && (eof ==> file.rest == [])
    }

    /** The bytes not returned yet: buffered, then still in the file. */
    ghost function Remaining(): seq<byte>
      requires begin <= end <= buffer.Length
      reads `buffer, `begin, `end, file, buffer
    {
      buffer[begin..end] + file.rest
    }

    constructor (file: File, bufferBytes: nat)
      ensures Valid() && fresh(buffer) && this.file == file && Remaining() == file.rest
      ensures counters == Counters(0, 0, 0, 0) && !truncated
    {
      this.file := file;
      buffer := new byte[bufferBytes](_ => 0);
      begin, end, eof, truncated, counters := 0, 0, false, false, Counters(0, 0, 0, 0);
    }

    /** Buffers what is missing of the next `need` bytes, unless the input ends first. */
    method Ensure(need: nat) returns (ok: bool)
      requires Valid()
      modifies `buffer, `begin, `end, `eof, buffer, file
      ensures Valid() && (buffer == old(buffer) || fresh(buffer))
      ensures Remaining() == old(Remaining())
      ensures ok <==> |Remaining()| >= need
      ensures if ok then end - begin >= need else |Remaining()| == end - begin
    {
      if end - begin >= need {
        return true;
      }
      Resize(need);
      Compact();
      Refill(need);
      return end - begin >= need;
    }

    method Resize(need: nat)
      requires Valid()
      modifies `buffer
      ensures Valid() && (buffer == old(buffer) || fresh(buffer)) && buffer.Length >= need
      ensures Remaining() == old(Remaining())
    {
      if need > buffer.Length {
        var bigger := new byte[need](_ => 0);
        PutBytes(bigger, 0, buffer[..]);
        assert forall i | 0 <= i < buffer.Length :: bigger[..][i] == buffer[i];
        buffer := bigger;
        assert buffer[begin..end] == old(buffer[begin..end]);
      }
    }

    /** The memmove: what is buffered goes to the front. */
    method Compact()
      requires Valid()
      modifies `begin, `end, buffer
      ensures Valid() && begin == 0 && Remaining() == old(Remaining())
    {
      if begin > 0 {
        forall i | 0 <= i < end - begin {
          buffer[i] := buffer[begin + i];
        }
        end := end - begin;
        begin := 0;
        assert buffer[begin..end] == old(buffer[begin..end]);
      }
    }

    method Refill(need: nat)
      requires Valid() && begin == 0 && need <= buffer.Length
      modifies `end, `eof, buffer, file
      ensures Valid() && Remaining() == old(Remaining())
      ensures end >= need || file.rest == []
    {
      hide Patched;
      while end < need && !eof
        invariant Valid() && Remaining() == old(Remaining())
        decreases |file.rest|, !eof
      {
        ghost var before, rest := buffer[..], file.rest;
        var n := file.Read(buffer, end, buffer.Length - end);
        if n == 0 {
          eof := true;
        }
        Appended(before, end, rest, n);
        assert buffer[..end + n] == buffer[..][..end + n];
        end := end + n;
      }
    }

    /** The next whole frame, well formed or not; none at the end of the input. */
    method NextFrame() returns (framed: bool, m: Frame)
      requires Valid()
      modifies `buffer, `begin, `end, `eof, `truncated, buffer, file
      ensures Valid() && (buffer == old(buffer) || fresh(buffer))
      ensures var b := old(Remaining());
        && (framed <==> |b| >= 2 && |b| >= 2 + Be16(b, 0))
        && (if framed then m == b[2..2 + Be16(b, 0)] && Remaining() == b[2 + Be16(b, 0)..]
            && truncated == old(truncated)
            else Remaining() == b && truncated == (b != []))
    {
      hide Be16, Remaining;
      m := [];
      var ok := Ensure(2);
      if !ok {
        truncated := end > begin;
        return false, [];
      }
      var len: nat := Prefix();
      ok := Ensure(2 + len);
      if !ok {
        truncated := true;
        return false, [];
      }
      m := TakeFrame(len);
      return true, m;
    }

    method Prefix() returns (len: nat)
      requires Valid() && end - begin >= 2
      ensures |Remaining()| >= 2 && len == Be16(Remaining(), 0)
    {
      SamePrefix(buffer, begin, end, file.rest);
      len := Be16(buffer[..], begin);
    }

    method TakeFrame(len: nat) returns (m: Frame)
      requires Valid() && end - begin >= 2 + len
      modifies `begin
      ensures Valid() && |old(Remaining())| >= 2 + len
      ensures m == old(Remaining())[2..2 + len] && Remaining() == old(Remaining())[2 + len..]
    {
      m := buffer[begin + 2..begin + 2 + len];
      Cut(buffer, begin, end, file.rest, len);
      begin := begin + 2 + len;
    }

    /** The next well-formed message, or an empty one at the end of the input. */
    method Next() returns (message: Frame, ghost skipped: seq<Frame>)
      requires Valid()
      modifies this, buffer, file
      ensures Valid() && (buffer == old(buffer) || fresh(buffer))
      ensures message == [] || |message| == MessageLength(message[0] as char)
      ensures forall m | m in skipped :: m == [] || |m| != MessageLength(m[0] as char)
      ensures Parse(old(Remaining())).frames ==
          skipped + (if message == [] then [] else [message]) + Parse(Remaining()).frames
      ensures counters.unknownTypes == old(counters).unknownTypes + OfNoType(skipped)
      ensures counters.lengthMismatches == old(counters).lengthMismatches + OfWrongLength(skipped)
      ensures Outcome(message, Remaining(), counters, truncated) ==
          NextOf(old(Remaining()), old(counters), old(truncated))
    {
      hide MessageLength, Be16, NextOf, Judge, Framed, Parse, CountOf, OfNoType, OfWrongLength, ItchReader.Remaining;
      skipped := NextSkips(Remaining(), counters, truncated);
      CountsMean(skipped);
      while true
        invariant Valid() && (buffer == old(buffer) || fresh(buffer))
        invariant NextOf(Remaining(), counters, truncated) == NextOf(old(Remaining()), old(counters), old(truncated))
        decreases |Remaining()|
      {
        NextUnfolds(Remaining(), counters, truncated);
        var framed;
        framed, message := NextFrame();
        if !framed {
          return [], skipped;
        }
        var good := Count(message);
        if good {
          return message, skipped;
        }
      }
    }

    /** Counts a frame, and says whether it is returned or skipped. */
    method Count(message: Frame) returns (good: bool)
      modifies `counters
      ensures counters == Framed(old(counters), message) && good == (Judge(message) == Good)
    {
      var len := |message|;
      counters := counters.(messages := counters.messages + 1, bytes := counters.bytes + 2 + len);
      if len == 0 {
        counters := counters.(lengthMismatches := counters.lengthMismatches + 1);
        return false;
      }
      var expected := MessageLength(message[0] as char);
      if expected == 0 {
        counters := counters.(unknownTypes := counters.unknownTypes + 1);
        return false;
      }
      if expected != len {
        counters := counters.(lengthMismatches := counters.lengthMismatches + 1);
        return false;
      }
      return true;
    }
  }

  /** With `b` still to read, `all` and the counters are what the plain parse says of the part of `input` before it. */
  ghost predicate ReadSoFar(input: seq<byte>, b: seq<byte>, all: seq<Frame>, c: Counters) {
    var p, q := Parse(input), Parse(b);
    && all + WellFormed(q.frames) == WellFormed(p.frames) && q.leftover == p.leftover
    && c.messages + |q.frames| == |p.frames|
    && c.unknownTypes + CountOf(q.frames, Unknown) == CountOf(p.frames, Unknown)
    && c.lengthMismatches + CountOf(q.frames, Mismatch) == CountOf(p.frames, Mismatch)
    && c.bytes + |b| == |input|
  }

  lemma ReadStep(input: seq<byte>, b: seq<byte>, all: seq<Frame>, c: Counters, truncated: bool)
    requires ReadSoFar(input, b, all, c)
    ensures var o := NextOf(b, c, truncated);
      && ReadSoFar(input, o.rest, if o.message == [] then all else all + [o.message], o.counters)
      && (if o.message == [] then Parse(o.rest).frames == [] && o.rest == Parse(input).leftover
            && o.truncated == (o.rest != [])
          else |o.rest| < |b|)
  {
    hide Parse, NextOf, WellFormed, CountOf;
    NextIsParse(b, c, truncated);
    assert all + [] == all;
  }

  lemma ReadEnd(input: seq<byte>, b: seq<byte>, all: seq<Frame>, c: Counters) returns (at: seq<nat>)
    requires ReadSoFar(input, b, all, c) && Parse(b).frames == []
    ensures var p := Parse(input);
      && Picked(all, p.frames, at)
      && c == Counters(|p.frames|, |input| - |b|, OfNoType(p.frames), OfWrongLength(p.frames))
      && c.messages == |all| + c.unknownTypes + c.lengthMismatches
  {
    hide Parse, WellFormed, CountOf, Picked, OfNoType, OfWrongLength;
    var p := Parse(input);
    NoFrames();
    assert all + [] == all;
    EveryFrameIsCounted(p.frames);
    CountsMean(p.frames);
    at := WellFormedIsPicked(p.frames);
  }

  /** Reading to the end, for every buffer size and every way the file splits its reads. */
  method ReadAll(reader: ItchReader) returns (all: seq<Frame>, ghost at: seq<nat>)
    requires reader.Valid() && reader.counters == Counters(0, 0, 0, 0)
    modifies reader, reader.buffer, reader.file
    ensures reader.Valid()
    ensures forall m | m in all :: m != [] && |m| == MessageLength(m[0] as char)
    ensures var p := Parse(old(reader.Remaining()));
      && Picked(all, p.frames, at)
      && reader.counters == Counters(|p.frames|, |old(reader.Remaining())| - |p.leftover|, OfNoType(p.frames),
                                     OfWrongLength(p.frames))
      && reader.counters.messages == |all| + reader.counters.unknownTypes + reader.counters.lengthMismatches
      && (reader.truncated <==> p.leftover != [])
      && reader.Remaining() == p.leftover
  {
    hide Parse, NextOf, WellFormed, Picked, OfNoType, OfWrongLength, ReadSoFar, MessageLength, ItchReader.Remaining;
    ghost var input := reader.Remaining();
    NothingRead(input);
    all := [];
    while true
      invariant reader.Valid() && (reader.buffer == old(reader.buffer) || fresh(reader.buffer))
      invariant ReadSoFar(input, reader.Remaining(), all, reader.counters)
      invariant forall m | m in all :: m != [] && |m| == MessageLength(m[0] as char)
      decreases |reader.Remaining()|
    {
      ReadStep(input, reader.Remaining(), all, reader.counters, reader.truncated);
      var m, _ := reader.Next();
      if m == [] {
        at := ReadEnd(input, reader.Remaining(), all, reader.counters);
        return all, at;
      }
      all := all + [m];
    }
  }

  lemma NothingRead(input: seq<byte>)
    ensures ReadSoFar(input, input, [], Counters(0, 0, 0, 0))
  {
    hide Parse, WellFormed, CountOf;
  }
}
