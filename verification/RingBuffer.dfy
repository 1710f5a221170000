/**
 * RingBuffer between two threads, as steps of one atomic access or one slot access each.
 *
 * An acquire load of an index the other thread stores may return any value not older than the last one seen. A slot is
 * plain memory: a read may return any write to it that no later write known to the reader hides, and the
 * consumer knows exactly the writes that came before the publish whose index it acquired.
 */
module RingBuffers {
  import opened BigEndian
  import opened Bits
  import opened SlotMemory

  /**
   * Whether each index store is a release. After a relaxed publish() the index carries no knowledge of the slots; a
   * relaxed consume() may become visible before the read it should follow.
   */
  datatype Config = Config(bits: nat, publishReleases: bool, consumeReleases: bool) {
    predicate Valid() { bits <= 63 }

    predicate Releases() { publishReleases && consumeReleases }

    function Size(): nat { Pow2(bits) }

    function SlotOf(index: u64): nat { And(index, Size() - 1) }
  }

  datatype Producer<T> = Ready | NeedTail(h: u64) | Claimed(h: u64) | Written(h: u64, value: T)

  /** `Late`: the tail has been stored, and the read that should come before it is still to come. */
  datatype Consumer<T> = Waiting | NeedHead(t: u64) | Peeked(t: u64) | Taken(t: u64, value: T) | Late(t: u64)

  /**
   * head, tail, cachedTail and cachedHead are the queue's 64-bit fields. `seenTail` and `seenHead` are how many
   * messages the cached values stand for, `known` how many the consumer's acquire loads have synchronized with.
   */
  datatype State<T> = State(head: u64, tail: u64, cachedTail: u64, cachedHead: u64, slots: seq<seq<Write<T>>>,
                            producer: Producer<T>, consumer: Consumer<T>, seenTail: nat, seenHead: nat, known: nat,
                            published: seq<T>, consumed: seq<T>)

  datatype Step<T> =
    | ClaimCheck | ClaimReload(seen: nat) | WriteSlot(value: T) | Publish
    | PeekCheck | PeekReload(seen: nat) | ReadSlot(k: nat) | Consume
    | ConsumeEarly | ReadLate(k: nat)

  function Initial<T>(c: Config): State<T> {
    State(0, 0, 0, 0, seq(c.Size(), _ => []), Ready, Waiting, 0, 0, 0, [], [])
  }

  /** How many slots the tail stores so far have handed back. */
  function Freed<T>(s: State<T>): nat {
    |s.consumed| + if s.consumer.Late? then 1 else 0
  }

  predicate Enabled<T>(c: Config, s: State<T>, step: Step<T>) {
    match step
    case ClaimCheck => s.producer.Ready?
    case ClaimReload(seen) => s.producer.NeedTail? && s.seenTail <= seen <= Freed(s)
    case WriteSlot(_) => (s.producer.Claimed? || s.producer.Written?) && c.SlotOf(s.producer.h) < |s.slots|
    case Publish => s.producer.Written?
    case PeekCheck => s.consumer.Waiting?
    case PeekReload(seen) => s.consumer.NeedHead? && s.seenHead <= seen <= |s.published|
    case ReadSlot(k) =>
      && (s.consumer.Peeked? || s.consumer.Taken?) && c.SlotOf(s.consumer.t) < |s.slots|
      && Visible(s.slots[c.SlotOf(s.consumer.t)], k, s.known)
    case Consume => s.consumer.Taken?
    case ConsumeEarly => !c.consumeReleases && s.consumer.Peeked?
    case ReadLate(k) =>
      && s.consumer.Late? && c.SlotOf(s.consumer.t) < |s.slots|
      && Visible(s.slots[c.SlotOf(s.consumer.t)], k, s.known)
  }

  function After<T>(c: Config, s: State<T>, step: Step<T>): State<T>
    requires Enabled(c, s, step)
  {
    match step
    case ClaimCheck =>
      if Sub64(s.head, s.cachedTail) >= c.Size() then s.(producer := NeedTail(s.head))
          else s.(producer := Claimed(s.head))
    case ClaimReload(seen) =>
      var h, tail := s.producer.h, seen % WORD;
      s.(cachedTail := tail, seenTail := seen, producer := if Sub64(h, tail) >= c.Size() then Ready else Claimed(h))
    case WriteSlot(value) =>
      var h := s.producer.h;
      s.(slots := s.slots[c.SlotOf(h) := s.slots[c.SlotOf(h)] + [Write(|s.published|, value)]], producer := Written(h,
          value))
    case Publish =>
      s.(head := (s.head + 1) % WORD, published := s.published + [s.producer.value], producer := Ready)
    case PeekCheck =>
      if s.tail == s.cachedHead then s.(consumer := NeedHead(s.tail)) else s.(consumer := Peeked(s.tail))
    case PeekReload(seen) =>
      var t, head := s.consumer.t, seen % WORD;
      s.(cachedHead := head, seenHead := seen, known := if c.publishReleases then seen else s.known,
         consumer := if t == head then Waiting else Peeked(t))
    case ReadSlot(k) =>
      s.(consumer := Taken(s.consumer.t, s.slots[c.SlotOf(s.consumer.t)][k].value))
    case Consume =>
      s.(tail := (s.tail + 1) % WORD, consumed := s.consumed + [s.consumer.value], consumer := Waiting)
    case ConsumeEarly =>
      s.(tail := (s.tail + 1) % WORD, consumer := Late(s.consumer.t))
    case ReadLate(k) =>
      s.(consumed := s.consumed + [s.slots[c.SlotOf(s.consumer.t)][k].value], consumer := Waiting)
  }

  /** A finite run from the initial state. */
  predicate IsRun<T>(c: Config, steps: seq<Step<T>>)
    decreases |steps|, 0
  {
    steps == [] || (IsRun(c, steps[..|steps| - 1]) && Enabled(c, Reached(c, steps[..|steps| - 1]), steps[|steps| - 1]))
  }

  function Reached<T>(c: Config, steps: seq<Step<T>>): State<T>
    requires IsRun(c, steps)
    decreases |steps|, 1
  {
    if steps == [] then Initial(c) else After(c, Reached(c, steps[..|steps| - 1]), steps[|steps| - 1])
  }

  // ---- The invariant ----

  ghost predicate Counters<T>(c: Config, s: State<T>) {
    && s.seenTail <= |s.consumed| <= s.seenHead <= |s.published| <= s.seenTail + c.Size()
    && s.head == |s.published| % WORD && s.tail == |s.consumed| % WORD
    && s.cachedTail == s.seenTail % WORD && s.cachedHead == s.seenHead % WORD
    && s.known == s.seenHead
  }

  ghost predicate ProducerOk<T>(c: Config, s: State<T>) {
    && (s.producer.Ready? || s.producer.h == s.head)
    && (s.producer.Claimed? || s.producer.Written? ==> |s.published| < s.seenTail + c.Size())
  }

  ghost predicate ConsumerOk<T>(s: State<T>) {
    && (s.consumer.Waiting? || s.consumer.t == s.tail) && !s.consumer.Late?
    && (s.consumer.Peeked? || s.consumer.Taken? ==> |s.consumed| < s.seenHead)
    && (s.consumer.Taken? ==> |s.consumed| < |s.published| && s.consumer.value == s.published[|s.consumed|])
    && s.consumed <= s.published
  }

  ghost predicate SlotsOk<T>(c: Config, s: State<T>) {
    && |s.slots| == c.Size()
    && (forall p, k | 0 <= p < |s.slots| && 0 <= k < |s.slots[p]| :: s.slots[p][k].index <= |s.published|)
    && (forall j | |s.consumed| <= j < |s.published| :: Holds(s.slots[j % c.Size()], j, s.published[j]))
    && (s.producer.Written? ==> Holds(s.slots[|s.published| % c.Size()], |s.published|, s.producer.value))
  }

  ghost predicate Inv<T>(c: Config, s: State<T>) {
    c.Valid() && c.Releases() && Counters(c, s) && ProducerOk(c, s) && ConsumerOk(s) && SlotsOk(c, s)
  }

  // ---- Every step keeps it ----

  lemma ClaimKeeps<T>(c: Config, s: State<T>, step: Step<T>)
    requires Inv(c, s) && Enabled(c, s, step) && (step.ClaimCheck? || step.ClaimReload?)
    ensures Inv(c, After(c, s, step))
    ensures var t := After(c, s, step);
      t.producer.Claimed? || t.producer.Ready? ==> (t.producer.Claimed? <==> |s.published| - t.seenTail < c.Size())
  {
    hide SlotsOk, ConsumerOk, Holds, Pow2;
    SizeFits(c.bits);
    NeverLate(c, s);
    WrappedDifference(|s.published|, s.seenTail);
    if step.ClaimReload? {
      WrappedDifference(|s.published|, step.seen);
    }
    SameSlots(c, s, After(c, s, step));
  }

  /** Nothing that the slots' invariant looks at has changed. */
  lemma SameSlots<T>(c: Config, s: State<T>, t: State<T>)
    requires t.slots == s.slots && t.published == s.published && t.consumed == s.consumed
    requires t.producer.Written? ==> t.producer == s.producer
    ensures SlotsOk(c, s) ==> SlotsOk(c, t)
    ensures t.consumer == s.consumer && t.tail == s.tail && t.seenHead == s.seenHead && ConsumerOk(s) ==> ConsumerOk(t)
  {
  }

  lemma PeekKeeps<T>(c: Config, s: State<T>, step: Step<T>)
    requires Inv(c, s) && Enabled(c, s, step) && (step.PeekCheck? || step.PeekReload?)
    ensures Inv(c, After(c, s, step))
    ensures var t := After(c, s, step);
      t.consumer.Peeked? || t.consumer.Waiting? ==> (t.consumer.Peeked? <==> |s.consumed| < t.seenHead)
  {
    hide SlotsOk, Holds, Pow2;
    SizeFits(c.bits);
    SameRemainder(|s.consumed|, s.seenHead, c.Size());
    if step.PeekReload? {
      SameRemainder(|s.consumed|, step.seen, c.Size());
    }
    SameSlots(c, s, After(c, s, step));
  }

  /** The slot being written belongs to no message the consumer has not finished with. */
  lemma SlotIsFree<T>(c: Config, s: State<T>, j: nat)
    requires c.Valid() && Counters(c, s) && |s.published| < s.seenTail + c.Size()
    requires |s.consumed| <= j < |s.published|
    ensures j % c.Size() != |s.published| % c.Size()
  {
    SizeFits(c.bits);
    ModDistinct(j, |s.published|, c.Size());
  }

  lemma WriteKeeps<T>(c: Config, s: State<T>, value: T)
    requires Inv(c, s) && Enabled(c, s, WriteSlot(value))
    ensures Inv(c, After(c, s, WriteSlot(value)))
  {
    hide Pow2, And;
    SizeFits(c.bits);
    SlotOfWrapped(|s.published|, c.bits);
    var t, at := After(c, s, WriteSlot(value)), |s.published| % c.Size();
    forall j | |t.consumed| <= j < |t.published| ensures Holds(t.slots[j % c.Size()], j, t.published[j]) {
      SlotIsFree(c, s, j);
      assert t.slots[j % c.Size()] == s.slots[j % c.Size()];
    }
  }

  lemma PublishKeeps<T>(c: Config, s: State<T>)
    requires Inv(c, s) && Enabled(c, s, Publish)
    ensures Inv(c, After(c, s, Publish))
  {
    hide SlotsOk, Pow2;
    WrappedIncrement(|s.published|);
    PublishSlots(c, s);
  }

  lemma PublishSlots<T>(c: Config, s: State<T>)
    requires SlotsOk(c, s) && s.producer.Written?
    ensures SlotsOk(c, After(c, s, Publish))
  {
    hide Pow2, Holds;
  }

  /** Every read the memory allows returns the message published at that index. */
  lemma ReadIsExact<T>(c: Config, s: State<T>, k: nat)
    requires Inv(c, s) && Enabled(c, s, ReadSlot(k))
    ensures |s.consumed| < |s.published|
    ensures s.slots[c.SlotOf(s.consumer.t)][k].value == s.published[|s.consumed|]
  {
    hide Pow2, And;
    SizeFits(c.bits);
    SlotOfWrapped(|s.consumed|, c.bits);
    var history := s.slots[|s.consumed| % c.Size()];
    LatestIsRead(history, |s.consumed|, s.published[|s.consumed|], k, s.known);
  }

  lemma ReadKeeps<T>(c: Config, s: State<T>, k: nat)
    requires Inv(c, s) && Enabled(c, s, ReadSlot(k))
    ensures Inv(c, After(c, s, ReadSlot(k)))
  {
    ReadIsExact(c, s, k);
    hide SlotsOk;
    SameSlots(c, s, After(c, s, ReadSlot(k)));
  }

  lemma ConsumeKeeps<T>(c: Config, s: State<T>)
    requires Inv(c, s) && Enabled(c, s, Consume)
    ensures Inv(c, After(c, s, Consume))
  {
    hide SlotsOk, Pow2;
    WrappedIncrement(|s.consumed|);
    ConsumeSlots(c, s);
  }

  lemma ConsumeSlots<T>(c: Config, s: State<T>)
    requires SlotsOk(c, s) && s.consumer.Taken?
    ensures SlotsOk(c, After(c, s, Consume))
  {
    hide Pow2, Holds;
  }

  lemma {:induction false} Safety<T>(c: Config, steps: seq<Step<T>>)
    requires c.Valid() && c.Releases() && IsRun(c, steps)
    ensures Inv(c, Reached(c, steps))
  {
    hide Inv, After, Enabled;
    if steps == [] {
      InitialInv<T>(c);
    } else {
      Safety(c, steps[..|steps| - 1]);
      StepKeeps(c, Reached(c, steps[..|steps| - 1]), steps[|steps| - 1]);
    }
  }

  lemma InitialInv<T>(c: Config)
    requires c.Valid() && c.Releases()
    ensures Inv(c, Initial<T>(c))
  {
    SizeFits(c.bits);
  }

  /** With release stores no read is ever late. */
  lemma NeverLate<T>(c: Config, s: State<T>)
    requires Inv(c, s)
    ensures !s.consumer.Late? && c.consumeReleases
  {
  }

  lemma StepKeeps<T>(c: Config, s: State<T>, step: Step<T>)
    requires Inv(c, s) && Enabled(c, s, step)
    ensures Inv(c, After(c, s, step))
  {
    hide Inv, After;
    match step
    case ClaimCheck => ClaimKeeps(c, s, step);
    case ClaimReload(_) => ClaimKeeps(c, s, step);
    case WriteSlot(value) => WriteKeeps(c, s, value);
    case Publish => PublishKeeps(c, s);
    case PeekCheck => PeekKeeps(c, s, step);
    case PeekReload(_) => PeekKeeps(c, s, step);
    case ReadSlot(k) => ReadKeeps(c, s, k);
    case Consume => ConsumeKeeps(c, s);
    case ConsumeEarly => NeverLate(c, s);
    case ReadLate(_) => NeverLate(c, s);
  }

  // ---- What that means for every run ----

  /** First in, first out, nothing lost or repeated, at every moment of every run. */
  lemma Fifo<T>(c: Config, steps: seq<Step<T>>)
    requires c.Valid() && c.Releases() && IsRun(c, steps)
    ensures var s := Reached(c, steps);
      && s.consumed <= s.published
      && s.seenTail <= |s.consumed| <= s.seenHead <= |s.published| <= s.seenTail + c.Size()
  {
    Safety(c, steps);
  }

  /** The slot the producer may write is never one the consumer may still read. */
  lemma NoOverlap<T>(c: Config, steps: seq<Step<T>>, j: nat)
    requires c.Valid() && c.Releases() && IsRun(c, steps)
    requires var s := Reached(c, steps);
      (s.producer.Claimed? || s.producer.Written?) && |s.consumed| <= j < |s.published|
    ensures c.SlotOf(Reached(c, steps).producer.h) != c.SlotOf(j % WORD)
  {
    hide After, Pow2, And;
    Safety(c, steps);
    var s := Reached(c, steps);
    SlotOfWrapped(|s.published|, c.bits);
    SlotOfWrapped(j, c.bits);
    SlotIsFree(c, s, j);
  }

  /**
   * No data race. Before the producer writes a slot, every earlier message of that slot has been consumed and that
   * consume acquired; while the consumer reads a slot, every write ever made to it happens before the read.
   */
  lemma NoRace<T>(c: Config, steps: seq<Step<T>>)
    requires c.Valid() && c.Releases() && IsRun(c, steps)
    ensures var s := Reached(c, steps);
      && (s.producer.Claimed? || s.producer.Written? ==>
            forall j | 0 <= j < |s.published| && j % c.Size() == |s.published| % c.Size() :: j < s.seenTail)
      && (s.consumer.Peeked? || s.consumer.Taken? ==>
            && c.SlotOf(s.consumer.t) < |s.slots|
            && forall w | w in s.slots[c.SlotOf(s.consumer.t)] :: w.index < s.known)
  {
    hide After, Pow2, And;
    Safety(c, steps);
    SizeFits(c.bits);
    var s := Reached(c, steps);
    if s.producer.Claimed? || s.producer.Written? {
      forall j | 0 <= j < |s.published| && j % c.Size() == |s.published| % c.Size() ensures j < s.seenTail {
        if |s.published| < j + c.Size() {
          ModDistinct(j, |s.published|, c.Size());
        }
      }
    }
    if s.consumer.Peeked? || s.consumer.Taken? {
      SlotOfWrapped(|s.consumed|, c.bits);
      assert Holds(s.slots[|s.consumed| % c.Size()], |s.consumed|, s.published[|s.consumed|]);
    }
  }

  /** With an up-to-date tail, claim() fails exactly when the queue is full; then the consumer has work. */
  lemma ClaimFailsOnlyWhenFull<T>(c: Config, steps: seq<Step<T>>)
    requires c.Valid() && c.Releases() && IsRun(c, steps)
    requires Enabled(c, Reached(c, steps), ClaimReload(|Reached(c, steps).consumed|))
    ensures var s := Reached(c, steps);
      var t := After(c, s, ClaimReload(|s.consumed|));
      && (t.producer.Ready? <==> |s.published| - |s.consumed| == c.Size())
      && (t.producer.Ready? ==> |s.published| > |s.consumed|)
  {
    Safety(c, steps);
    SizeFits(c.bits);
    ClaimKeeps(c, Reached(c, steps), ClaimReload(|Reached(c, steps).consumed|));
  }

  /** With an up-to-date head, peek() fails exactly when the queue is empty. */
  lemma PeekFailsOnlyWhenEmpty<T>(c: Config, steps: seq<Step<T>>)
    requires c.Valid() && c.Releases() && IsRun(c, steps)
    requires Enabled(c, Reached(c, steps), PeekReload(|Reached(c, steps).published|))
    ensures var s := Reached(c, steps);
      After(c, s, PeekReload(|s.published|)).consumer.Waiting? <==> |s.published| == |s.consumed|
  {
    Safety(c, steps);
    PeekKeeps(c, Reached(c, steps), PeekReload(|Reached(c, steps).published|));
  }

  // ---- Both releases are needed ----

  const PUBLISH_RELAXED: Config := Config(0, false, true)
  const CONSUME_RELAXED: Config := Config(0, true, false)

  /** One more step of a run known to have reached `s`. */
  lemma Extend<T>(c: Config, steps: seq<Step<T>>, s: State<T>, step: Step<T>) returns (more: seq<Step<T>>)
    requires IsRun(c, steps) && Reached(c, steps) == s && Enabled(c, s, step)
    ensures IsRun(c, more) && Reached(c, more) == After(c, s, step)
  {
    more := steps + [step];
    assert more[..|more| - 1] == steps;
  }

  lemma OneSlot(c: Config)
    requires c.bits == 0
    ensures c.Size() == 1
    ensures forall i: u64 :: c.SlotOf(i) == 0
  {
  }

  /** A message goes through a one-slot queue with a relaxed publish(): nothing tells the consumer what was written. */
  lemma RelaxedFirst<T>(a: T) returns (steps: seq<Step<T>>)
    ensures var c := PUBLISH_RELAXED;
      IsRun(c, steps) &&
      Reached(c, steps) == State(1, 1, 0, 1, [[Write(0, a)]], Ready, Waiting, 0, 1, 0, [a], [a])
  {
    hide IsRun, Reached;
    OneSlot(PUBLISH_RELAXED);
    var c, none: seq<T> := PUBLISH_RELAXED, [];
    steps := OneSlotStart<T>(c);
    steps := Extend(c, steps, State(0, 0, 0, 0, [[]], Ready, Waiting, 0, 0, 0, none, none), ClaimCheck);
    steps := Extend(c, steps, State(0, 0, 0, 0, [[]], Claimed(0), Waiting, 0, 0, 0, none, none), WriteSlot(a));
    OneMoreWrite([], Write(0, a));
    steps := Extend(c, steps, State(0, 0, 0, 0, [[Write(0, a)]], Written(0, a), Waiting, 0, 0, 0, none, none), Publish);
    steps := Extend(c, steps, State(1, 0, 0, 0, [[Write(0, a)]], Ready, Waiting, 0, 0, 0, [a], none), PeekCheck);
    steps := Extend(c, steps, State(1, 0, 0, 0, [[Write(0, a)]], Ready, NeedHead(0), 0, 0, 0, [a], none),
        PeekReload(1));
    steps := Extend(c, steps, State(1, 0, 0, 1, [[Write(0, a)]], Ready, Peeked(0), 0, 1, 0, [a], none), ReadSlot(0));
    steps := Extend(c, steps, State(1, 0, 0, 1, [[Write(0, a)]], Ready, Taken(0, a), 0, 1, 0, [a], none), Consume);
  }

  lemma OneMoreWrite<T>(history: seq<Write<T>>, w: Write<T>)
    ensures [history][0 := history + [w]] == [history + [w]]
    ensures history == [] ==> history + [w] == [w]
    ensures |history| == 1 ==> history + [w] == [history[0], w]
  {
  }

  lemma OneSlotStart<T>(c: Config) returns (steps: seq<Step<T>>)
    requires c.bits == 0
    ensures IsRun(c, steps) && Reached(c, steps) == State(0, 0, 0, 0, [[]], Ready, Waiting, 0, 0, 0, [], [])
  {
    OneSlot(c);
    steps := [];
  }

  /** Without the release, the consumer may read the slot's previous message in place of the next one. */
  lemma RelaxedPublishReadsStale<T>(a: T, b: T) returns (steps: seq<Step<T>>)
    ensures var c := PUBLISH_RELAXED;
      IsRun(c, steps) && Reached(c, steps).published == [a, b] && Reached(c, steps).consumed == [a, a]
  {
    hide IsRun, Reached;
    OneSlot(PUBLISH_RELAXED);
    var c, w := PUBLISH_RELAXED, Write(0, a);
    steps := RelaxedFirst(a);
    steps := Extend(c, steps, State(1, 1, 0, 1, [[w]], Ready, Waiting, 0, 1, 0, [a], [a]), ClaimCheck);
    steps := Extend(c, steps, State(1, 1, 0, 1, [[w]], NeedTail(1), Waiting, 0, 1, 0, [a], [a]), ClaimReload(1));
    steps := Extend(c, steps, State(1, 1, 1, 1, [[w]], Claimed(1), Waiting, 1, 1, 0, [a], [a]), WriteSlot(b));
    OneMoreWrite([w], Write(1, b));
    steps := Extend(c, steps, State(1, 1, 1, 1, [[w, Write(1, b)]], Written(1, b), Waiting, 1, 1, 0, [a], [a]),
        Publish);
    steps := Extend(c, steps, State(2, 1, 1, 1, [[w, Write(1, b)]], Ready, Waiting, 1, 1, 0, [a, b], [a]), PeekCheck);
    steps := Extend(c, steps, State(2, 1, 1, 1, [[w, Write(1, b)]], Ready, NeedHead(1), 1, 1, 0, [a, b], [a]),
        PeekReload(2));
    steps := Extend(c, steps, State(2, 1, 1, 2, [[w, Write(1, b)]], Ready, Peeked(1), 1, 2, 0, [a, b], [a]),
        ReadSlot(0));
    steps := Extend(c, steps, State(2, 1, 1, 2, [[w, Write(1, b)]], Ready, Taken(1, a), 1, 2, 0, [a, b], [a]), Consume);
  }

  /** Without this release, the producer may overwrite a slot that the consumer has yet to read. */
  lemma RelaxedConsumeReadsAhead<T>(a: T, b: T) returns (steps: seq<Step<T>>)
    ensures var c := CONSUME_RELAXED;
      IsRun(c, steps) && Reached(c, steps).published == [a] && Reached(c, steps).consumed == [b]
  {
    hide IsRun, Reached;
    OneSlot(CONSUME_RELAXED);
    var c, w, none: seq<T> := CONSUME_RELAXED, Write(0, a), [];
    steps := RelaxedPeek(a);
    steps := Extend(c, steps, State(1, 0, 0, 1, [[w]], Ready, Peeked(0), 0, 1, 1, [a], none), ConsumeEarly);
    steps := Extend(c, steps, State(1, 1, 0, 1, [[w]], Ready, Late(0), 0, 1, 1, [a], none), ClaimCheck);
    steps := Extend(c, steps, State(1, 1, 0, 1, [[w]], NeedTail(1), Late(0), 0, 1, 1, [a], none), ClaimReload(1));
    steps := Extend(c, steps, State(1, 1, 1, 1, [[w]], Claimed(1), Late(0), 1, 1, 1, [a], none), WriteSlot(b));
    OneMoreWrite([w], Write(1, b));
    steps := Extend(c, steps, State(1, 1, 1, 1, [[w, Write(1, b)]], Written(1, b), Late(0), 1, 1, 1, [a], none),
                    ReadLate(1));
  }

  lemma RelaxedPeek<T>(a: T) returns (steps: seq<Step<T>>)
    ensures var c := CONSUME_RELAXED;
      IsRun(c, steps) && Reached(c, steps) == State(1, 0, 0, 1, [[Write(0, a)]], Ready, Peeked(0), 0, 1, 1, [a], [])
  {
    hide IsRun, Reached;
    OneSlot(CONSUME_RELAXED);
    var c, w, none: seq<T> := CONSUME_RELAXED, Write(0, a), [];
    steps := OneSlotStart<T>(c);
    steps := Extend(c, steps, State(0, 0, 0, 0, [[]], Ready, Waiting, 0, 0, 0, none, none), ClaimCheck);
    steps := Extend(c, steps, State(0, 0, 0, 0, [[]], Claimed(0), Waiting, 0, 0, 0, none, none), WriteSlot(a));
    OneMoreWrite([], w);
    steps := Extend(c, steps, State(0, 0, 0, 0, [[w]], Written(0, a), Waiting, 0, 0, 0, none, none), Publish);
    steps := Extend(c, steps, State(1, 0, 0, 0, [[w]], Ready, Waiting, 0, 0, 0, [a], none), PeekCheck);
    steps := Extend(c, steps, State(1, 0, 0, 0, [[w]], Ready, NeedHead(0), 0, 0, 0, [a], none), PeekReload(1));
  }
}
