/** RingV1Store and RingV2: caching the other side's index and batching never change an answer. */
module RingVariants {
  import opened Basics
  import opened BigEndian
  import opened Bits

  /** The messages not yet taken are in their slots. */
  ghost predicate InSlots<T>(buffer: seq<T>, size: nat, log: seq<T>, taken: nat) {
    && |buffer| == size > 0 && taken <= |log| <= taken + size
    && forall j | taken <= j < |log| :: buffer[j % size] == log[j]
  }

  /** A write to the next slot disturbs no message that is still there. */
  lemma WriteNext<T>(buffer: seq<T>, size: nat, log: seq<T>, taken: nat, value: T)
    requires InSlots(buffer, size, log, taken) && |log| < taken + size
    ensures 0 <= |log| % size < |buffer|
    ensures InSlots(buffer[|log| % size := value], size, log, taken)
  {
    forall j | taken <= j < |log| ensures j % size != |log| % size {
      ModDistinct(j, |log|, size);
    }
  }

  /** What is in the next slot becomes the next message. */
  lemma SlotIsMessage<T>(buffer: seq<T>, size: nat, log: seq<T>, taken: nat)
    requires InSlots(buffer, size, log, taken) && |log| < taken + size
    ensures 0 <= |log| % size < |buffer|
    ensures InSlots(buffer, size, log + [buffer[|log| % size]], taken)
  {
  }

  class RingV1Store<T(0)> {
    const bits: nat
    var head: u64
    var tail: u64
    const buffer: array<T>
    ghost var log: seq<T>  // every message published
    ghost var taken: nat   // how many were consumed

    ghost predicate Valid()
      reads this, buffer
    {
      && bits <= 63 && InSlots(buffer[..], Pow2(bits), log, taken)
      && head == |log| % WORD && tail == taken % WORD
    }

    constructor (bits: nat)
      requires bits <= 63
      ensures Valid() && this.bits == bits && log == [] && taken == 0 && fresh(buffer)
    {
      this.bits := bits;
      head, tail, log, taken := 0, 0, [], 0;
      buffer := new T[Pow2(bits)];
    }

    method Claim() returns (slot: Option<nat>)
      requires Valid()
      ensures slot == if |log| - taken < Pow2(bits) then Some(|log| % Pow2(bits)) else None
    {
      hide Pow2, And, InSlots;
      SizeFits(bits);
      Bounds();
      WrappedDifference(|log|, taken);
      SlotOfWrapped(|log|, bits);
      var h, t := head, tail;
      if Sub64(h, t) >= Pow2(bits) {
        return None;
      }
      return Some(And(h, Pow2(bits) - 1));
    }

    lemma Bounds()
      requires Valid()
      ensures taken <= |log| <= taken + Pow2(bits) == taken + buffer.Length
    {
    }

    /** The producer's write through the claimed pointer. */
    method Fill(slot: nat, value: T)
      requires Valid() && |log| - taken < Pow2(bits) && slot == |log| % Pow2(bits)
      modifies buffer
      ensures Valid() && slot < buffer.Length && buffer[slot] == value
    {
      hide Pow2, InSlots;
      WriteNext(buffer[..], Pow2(bits), log, taken, value);
      Bounds();
      ghost var before := buffer[..];
      buffer[slot] := value;
      assert buffer[..] == before[slot := value];
    }

    method Publish()
      requires Valid() && |log| - taken < Pow2(bits)
      modifies this
      ensures Valid() && taken == old(taken) && 0 <= |old(log)| % Pow2(bits) < buffer.Length
      ensures log == old(log) + [buffer[|old(log)| % Pow2(bits)]]
    {
      hide Pow2;
      WrappedIncrement(|log|);
      head := (head + 1) % WORD;
      log := log + [buffer[|log| % Pow2(bits)]];
    }

    method Peek() returns (slot: Option<nat>)
      requires Valid()
      ensures slot == if taken < |log| then Some(taken % Pow2(bits)) else None
      ensures slot.Some? ==> slot.value < buffer.Length && buffer[slot.value] == log[taken]
    {
      hide Pow2, And;
      SizeFits(bits);
      Bounds();
      SameRemainder(taken, |log|, Pow2(bits));
      SlotOfWrapped(taken, bits);
      var t, h := tail, head;
      if t == h {
        return None;
      }
      return Some(And(t, Pow2(bits) - 1));
    }

    method Consume()
      requires Valid() && taken < |log|
      modifies `tail, `taken
      ensures Valid() && taken == old(taken) + 1
    {
      hide Pow2;
      WrappedIncrement(taken);
      tail := (tail + 1) % WORD;
      taken := taken + 1;
    }
  }

  class RingV2<T(0)> {
    const bits: nat
    const batch: nat
    var head: u64       // shared: published write position
    var writeIdx: u64   // how many have been written, shown or not
    var cachedTail: u64
    var tail: u64       // how many have been taken
    var cachedHead: u64
    const buffer: array<T>
    ghost var log: seq<T>  // every message claimed and published, visible or not
    ghost var shown: nat   // how many the consumer can see
    ghost var taken: nat
    ghost var seenTail: nat
    ghost var seenHead: nat

    ghost predicate Valid()
      reads this, buffer
    {
      && bits <= 63 && 1 <= batch <= Pow2(bits)
      && InSlots(buffer[..], Pow2(bits), log, taken)
      && seenTail <= taken <= seenHead <= shown <= |log| <= seenTail + Pow2(bits)
      && |log| - shown < batch
      && writeIdx == |log| % WORD && head == shown % WORD && tail == taken % WORD
      && cachedTail == seenTail % WORD && cachedHead == seenHead % WORD
    }

    constructor (bits: nat, batch: nat)
      requires bits <= 63 && 1 <= batch <= Pow2(bits)
      ensures Valid() && this.bits == bits && this.batch == batch && log == [] && shown == 0 && taken == 0
          && fresh(buffer)
    {
      this.bits, this.batch := bits, batch;
      head, writeIdx, cachedTail, tail, cachedHead := 0, 0, 0, 0, 0;
      log, shown, taken, seenTail, seenHead := [], 0, 0, 0, 0;
      buffer := new T[Pow2(bits)];
    }

    /** Fails exactly when the queue is full, whatever the cached tail says. */
    method Claim() returns (slot: Option<nat>)
      requires Valid()
      modifies `cachedTail, `seenTail
      ensures Valid()
      ensures slot == if |log| - taken < Pow2(bits) then Some(|log| % Pow2(bits)) else None
      ensures slot.Some? ==> |log| < seenTail + Pow2(bits)
    {
      hide Pow2, And, InSlots;
      SizeFits(bits);
      Bounds();
      WrappedDifference(|log|, seenTail);
      WrappedDifference(|log|, taken);
      SlotOfWrapped(|log|, bits);
      if Sub64(writeIdx, cachedTail) >= Pow2(bits) {
        cachedTail, seenTail := tail, taken;
        if Sub64(writeIdx, cachedTail) >= Pow2(bits) {
          return None;
        }
      }
      return Some(And(writeIdx, Pow2(bits) - 1));
    }

    lemma Bounds()
      requires Valid()
      ensures taken <= |log| <= taken + Pow2(bits) == taken + buffer.Length
    {
    }

    method Fill(slot: nat, value: T)
      requires Valid() && |log| - taken < Pow2(bits) && slot == |log| % Pow2(bits)
      modifies buffer
      ensures Valid() && slot < buffer.Length && buffer[slot] == value
    {
      hide Pow2, InSlots;
      WriteNext(buffer[..], Pow2(bits), log, taken, value);
      Bounds();
      ghost var before := buffer[..];
      buffer[slot] := value;
      assert buffer[..] == before[slot := value];
    }

    /** Shows a whole batch at once; until then nothing new is visible. */
    method Publish()
      requires Valid() && |log| < seenTail + Pow2(bits)
      modifies `writeIdx, `head, `log, `shown
      ensures Valid() && 0 <= |old(log)| % Pow2(bits) < buffer.Length
      ensures log == old(log) + [buffer[|old(log)| % Pow2(bits)]]
      ensures shown == if |log| - old(shown) < batch then old(shown) else |log|
    {
      hide Pow2, InSlots;
      SizeFits(bits);
      WrappedIncrement(|log|);
      WrappedDifference(|log| + 1, shown);
      SlotIsMessage(buffer[..], Pow2(bits), log, taken);
      writeIdx := (writeIdx + 1) % WORD;
      log := log + [buffer[|log| % Pow2(bits)]];
      if batch > 1 {
        if Sub64(writeIdx, head) < batch {
          return;
        }
      }
      head, shown := writeIdx, |log|;
    }

    /** Shows everything batching still held back. */
    method Flush()
      requires Valid()
      modifies `head, `shown
      ensures Valid() && shown == |log|
    {
      head, shown := writeIdx, |log|;
    }

    /** Fails exactly when nothing is visible, whatever the cached head says. */
    method Peek() returns (slot: Option<nat>)
      requires Valid()
      modifies `cachedHead, `seenHead
      ensures Valid()
      ensures slot == if taken < shown then Some(taken % Pow2(bits)) else None
      ensures slot.Some? ==> taken < seenHead && slot.value < buffer.Length && buffer[slot.value] == log[taken]
    {
      hide Pow2, And;
      SizeFits(bits);
      Bounds();
      SameRemainder(taken, seenHead, Pow2(bits));
      SameRemainder(taken, shown, Pow2(bits));
      SlotOfWrapped(taken, bits);
      var t := tail;
      if t == cachedHead {
        cachedHead, seenHead := head, shown;
        if t == cachedHead {
          return None;
        }
      }
      return Some(And(t, Pow2(bits) - 1));
    }

    method Consume()
      requires Valid() && taken < seenHead
      modifies `tail, `taken
      ensures Valid() && taken == old(taken) + 1
    {
      hide Pow2;
      WrappedIncrement(taken);
      tail := (tail + 1) % WORD;
      taken := taken + 1;
    }

    /** Batching never blocks both sides: a full producer leaves the consumer something to see. */
    lemma FullMeansVisible()
      requires Valid() && |log| - taken == Pow2(bits)
      ensures taken < shown
    {
    }
  }

  // ---- Call for call ----

  datatype Call<T> = Claim | Send(value: T) | Peek | Receive | Flush

  /** What a call returns: the slot offered, if any, and the message received, if any. */
  datatype Answer<T> = Answer(slot: Option<nat>, message: Option<T>)

  /** The plain bounded queue behind both rings: what was sent, what may be seen, what was taken. */
  datatype Plain<T> = Plain(log: seq<T>, shown: nat, taken: nat)

  ghost predicate PlainOk<T>(q: Plain<T>, bits: nat, batch: nat) {
    q.taken <= q.shown <= |q.log| <= q.taken + Pow2(bits) && |q.log| - q.shown < batch
  }

  function Respond<T>(q: Plain<T>, bits: nat, batch: nat, call: Call<T>): (Plain<T>, Answer<T>)
    requires q.taken <= q.shown <= |q.log|
  {
    var free := if |q.log| - q.taken < Pow2(bits) then Some(|q.log| % Pow2(bits)) else None;
    var next := if q.taken < q.shown then Some(q.taken % Pow2(bits)) else None;
    match call
    case Claim => (q, Answer(free, None))
    case Send(value) =>
      var more := |q.log| + 1;
      (if free == None then q else q.(log := q.log + [value], shown := if more - q.shown < batch then q.shown
          else more),
       Answer(free, None))
    case Peek => (q, Answer(next, None))
    case Receive =>
      if next == None then (q, Answer(None, None)) else (q.(taken := q.taken + 1), Answer(next, Some(q.log[q.taken])))
    case Flush => (q.(shown := |q.log|), Answer(None, None))
  }

  lemma RespondKeeps<T>(q: Plain<T>, bits: nat, batch: nat, call: Call<T>)
    requires 1 <= batch && PlainOk(q, bits, batch)
    ensures PlainOk(Respond(q, bits, batch, call).0, bits, batch)
  {
  }

  /** The plain queue's answers to a sequence of calls. */
  function Replies<T>(bits: nat, batch: nat, calls: seq<Call<T>>): (r: (Plain<T>, seq<Answer<T>>))
    requires 1 <= batch
    ensures PlainOk(r.0, bits, batch)
  {
    if calls == [] then (Plain([], 0, 0), [])
    else
      var (q, answers) := Replies(bits, batch, calls[..|calls| - 1]);
      RespondKeeps(q, bits, batch, calls[|calls| - 1]);
      var (t, a) := Respond(q, bits, batch, calls[|calls| - 1]);
      (t, answers + [a])
  }

  method DoV1<T(0)>(ring: RingV1Store<T>, call: Call<T>) returns (a: Answer<T>)
    requires ring.Valid()
    modifies ring, ring.buffer
    ensures ring.Valid()
    ensures (Plain(ring.log, |ring.log|, ring.taken), a) ==
      Respond(Plain(old(ring.log), |old(ring.log)|, old(ring.taken)), ring.bits, 1, call)
  {
    hide Pow2, InSlots, RingV1Store.Valid;
    ring.Bounds();
    match call
    case Claim =>
      var slot := ring.Claim();
      a := Answer(slot, None);
    case Send(value) =>
      var slot := ring.Claim();
      if slot.Some? {
        ring.Fill(slot.value, value);
        ring.Publish();
      }
      a := Answer(slot, None);
    case Peek =>
      var slot := ring.Peek();
      a := Answer(slot, None);
    case Receive =>
      var slot := ring.Peek();
      if slot.Some? {
        a := Answer(slot, Some(ring.buffer[slot.value]));
        ring.Consume();
      } else {
        a := Answer(None, None);
      }
    case Flush =>
      a := Answer(None, None);
  }

  method DoV2<T(0)>(ring: RingV2<T>, call: Call<T>) returns (a: Answer<T>)
    requires ring.Valid()
    modifies ring, ring.buffer
    ensures ring.Valid()
    ensures (Plain(ring.log, ring.shown, ring.taken), a) ==
      Respond(Plain(old(ring.log), old(ring.shown), old(ring.taken)), ring.bits, ring.batch, call)
  {
    hide Pow2, InSlots;
    match call
    case Claim =>
      var slot := ring.Claim();
      a := Answer(slot, None);
    case Send(value) => a := SendV2(ring, value);
    case Peek =>
      var slot := ring.Peek();
      a := Answer(slot, None);
    case Receive => a := ReceiveV2(ring);
    case Flush =>
      ring.Flush();
      a := Answer(None, None);
  }

  method SendV2<T(0)>(ring: RingV2<T>, value: T) returns (a: Answer<T>)
    requires ring.Valid()
    modifies ring, ring.buffer
    ensures ring.Valid()
    ensures (Plain(ring.log, ring.shown, ring.taken), a) ==
      Respond(Plain(old(ring.log), old(ring.shown), old(ring.taken)), ring.bits, ring.batch, Send(value))
  {
    hide Pow2, InSlots, RingV2.Valid;
    var slot := ring.Claim();
    if slot.Some? {
      ring.Fill(slot.value, value);
      ring.Publish();
    }
    a := Answer(slot, None);
  }

  method ReceiveV2<T(0)>(ring: RingV2<T>) returns (a: Answer<T>)
    requires ring.Valid()
    modifies ring, ring.buffer
    ensures ring.Valid()
    ensures (Plain(ring.log, ring.shown, ring.taken), a) ==
      Respond(Plain(old(ring.log), old(ring.shown), old(ring.taken)), ring.bits, ring.batch, Receive)
  {
    hide Pow2, InSlots;
    var slot := ring.Peek();
    if slot.Some? {
      a := Answer(slot, Some(ring.buffer[slot.value]));
      ring.Consume();
    } else {
      a := Answer(None, None);
    }
  }

  /** Any sequence of calls: RingV2 with any batch answers as the plain queue; with batch 1, exactly as RingV1Store. */
  method Lockstep<T(0)>(bits: nat, batch: nat, calls: seq<Call<T>>) returns (v1: seq<Answer<T>>, v2: seq<Answer<T>>)
    requires bits <= 63 && 1 <= batch <= Pow2(bits)
    ensures v1 == Replies(bits, 1, calls).1 && v2 == Replies(bits, batch, calls).1
    ensures batch == 1 ==> v1 == v2
  {
    hide Pow2, Respond, RingV1Store.Valid, RingV2.Valid;
    var old1 := new RingV1Store<T>(bits);
    var new2 := new RingV2<T>(bits, batch);
    v1, v2 := [], [];
    for i := 0 to |calls|
      invariant old1.Valid() && new2.Valid() && fresh(old1) && fresh(new2) && fresh(old1.buffer) && fresh(new2.buffer)
      invariant old1.buffer != new2.buffer && old1.bits == bits && new2.bits == bits && new2.batch == batch
      invariant (Plain(old1.log, |old1.log|, old1.taken), v1) == Replies(bits, 1, calls[..i])
      invariant (Plain(new2.log, new2.shown, new2.taken), v2) == Replies(bits, batch, calls[..i])
    {
      assert calls[..i + 1][..i] == calls[..i];
      var a := DoV1(old1, calls[i]);
      var b := DoV2(new2, calls[i]);
      v1, v2 := v1 + [a], v2 + [b];
    }
    assert calls[..|calls|] == calls;
  }
}
