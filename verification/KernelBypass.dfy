/**
 * KernelBypass: descriptors handed between a NIC and a polling CPU by their ready flags, one access per step.
 * The NIC fills consecutive descriptors and retries a refused one. An acquire load of a flag may return the
 * value the loading side last stored there, even if the other side has changed it since; a read of a
 * descriptor's data may return any write to it that no later write known to the CPU hides.
 */
module KernelBypass {
  import opened Basics
  import opened Bits
  import opened SlotMemory

  datatype Nic = Idle | Filling(data: int) | Filled(data: int)

  datatype Cpu = Polling | Owned | Copied(data: int)

  /**
   * A set flag remembers which packet's signal set it. The CPU has synchronized with the first `known` packets;
   * `polled` packets have been handed out, `accepted` taken in.
   */
  datatype State = State(ready: seq<Option<nat>>, data: seq<seq<Write<int>>>, head: nat, nic: Nic, cpu: Cpu, known: nat,
                         accepted: seq<int>, polled: seq<int>)

  datatype Step = Check(packet: int, flag: bool) | Write | Signal | Poll(flag: bool) | Copy(k: nat) | Clear

  function Initial(n: nat): State {
    State(seq(n, _ => None), seq(n, _ => []), 0, Idle, Polling, 0, [], [])
  }

  /** What the NIC may read: the flag, or its own earlier `true`. */
  predicate NicMaySee(n: nat, s: State, flag: bool)
    requires n > 0 && |s.ready| == n
  {
    var at := |s.accepted| % n;
    flag == s.ready[at].Some? || (flag && |s.accepted| >= n)
  }

  /** What the CPU may read: the flag, or its own earlier (or the initial) `false`. */
  predicate CpuMaySee(s: State, flag: bool)
    requires s.head < |s.ready|
  {
    flag == s.ready[s.head].Some? || !flag
  }

  predicate Shaped(n: nat, s: State) {
    n > 0 && |s.ready| == n && |s.data| == n && s.head < n
  }

  predicate Enabled(n: nat, s: State, step: Step) {
    Shaped(n, s) &&
    match step
    case Check(_, flag) => s.nic.Idle? && NicMaySee(n, s, flag)
    case Write => s.nic.Filling?
    case Signal => s.nic.Filled?
    case Poll(flag) => s.cpu.Polling? && CpuMaySee(s, flag)
    case Copy(k) => s.cpu.Owned? && Visible(s.data[s.head], k, s.known)
    case Clear => s.cpu.Copied?
  }

  function After(n: nat, s: State, step: Step): State
    requires Enabled(n, s, step)
  {
    var at, packets := |s.accepted| % n, |s.accepted|;
    match step
    case Check(packet, flag) => if flag then s else s.(nic := Filling(packet))
    case Write =>
      var write := SlotMemory.Write(packets, s.nic.data);
      s.(data := s.data[at := s.data[at] + [write]], nic := Filled(s.nic.data))
    case Signal => s.(ready := s.ready[at := Some(packets)], nic := Idle, accepted := s.accepted + [s.nic.data])
    case Poll(flag) => if flag then s.(cpu := Owned, known := Max(s.known, s.ready[s.head].value + 1)) else s
    case Copy(k) => s.(cpu := Copied(s.data[s.head][k].value))
    case Clear =>
      s.(ready := s.ready[s.head := None], head := (s.head + 1) % n, cpu := Polling, polled := s.polled + [s.cpu.data])
  }

  /** Descriptor `i` is in the window of packets accepted and not yet polled. */
  predicate InWindow(n: nat, s: State, i: nat)
    requires n > 0
  {
    exists j | |s.polled| <= j < |s.accepted| :: j % n == i
  }

  ghost predicate Inv(n: nat, s: State) {
    && Shaped(n, s)
    && |s.polled| <= |s.accepted| <= |s.polled| + n
    && s.head == |s.polled| % n
    && s.polled <= s.accepted
    && (forall i | 0 <= i < n :: s.ready[i].Some? <==> InWindow(n, s, i))
    && (forall j | |s.polled| <= j < |s.accepted| :: s.ready[j % n] == Some(j))
    && (forall j | |s.polled| <= j < |s.accepted| :: Holds(s.data[j % n], j, s.accepted[j]))
    && (!s.nic.Idle? ==> |s.accepted| < |s.polled| + n)
    && (s.nic.Filled? ==> Holds(s.data[|s.accepted| % n], |s.accepted|, s.nic.data))
    && (forall i, k | 0 <= i < n && 0 <= k < |s.data[i]| :: s.data[i][k].index <= |s.accepted|)
    && (!s.cpu.Polling? ==> |s.polled| < |s.accepted| && |s.polled| < s.known)
    && (s.cpu.Copied? ==> |s.polled| < |s.accepted| && s.cpu.data == s.accepted[|s.polled|])
  }

  /** Descriptors of different packets in or next to the window are different. */
  lemma Different(n: nat, s: State, j: nat, k: nat)
    requires n > 0 && |s.polled| <= j < k < |s.polled| + n
    ensures j % n != k % n
  {
    ModDistinct(j, k, n);
  }

  /** A full ring is exactly one whose next descriptor is still ready. */
  lemma FullIff(n: nat, s: State)
    requires Inv(n, s)
    ensures s.ready[|s.accepted| % n].Some? <==> |s.accepted| == |s.polled| + n
  {
    var a, p := |s.accepted|, |s.polled|;
    if a == p + n {
      SameSlot(p, n);
      assert InWindow(n, s, a % n) by {
        assert p % n == a % n;
      }
    } else {
      forall j | p <= j < a ensures j % n != a % n {
        Different(n, s, j, a);
      }
    }
  }

  lemma SameSlot(p: nat, n: nat)
    requires n > 0
    ensures (p + n) % n == p % n
  {
    DivBounds(p, n);
    var q := p / n;
    assert p + n == (q + 1) * n + p % n;
    QuotientIsUnique(p + n, n, q + 1, p % n);
  }

  lemma NicKeeps(n: nat, s: State, step: Step)
    requires Inv(n, s) && Enabled(n, s, step) && (step.Check? || step.Write?)
    ensures Inv(n, After(n, s, step))
  {
    var t, a := After(n, s, step), |s.accepted|;
    FullIff(n, s);
    assert forall i | 0 <= i < n :: InWindow(n, t, i) == InWindow(n, s, i);
    if step.Write? {
      forall j | |s.polled| <= j < a ensures t.data[j % n] == s.data[j % n] {
        Different(n, s, j, a);
      }
    }
  }

  lemma SignalKeeps(n: nat, s: State)
    requires Inv(n, s) && Enabled(n, s, Signal)
    ensures Inv(n, After(n, s, Signal))
  {
    var t, a := After(n, s, Signal), |s.accepted|;
    forall i | 0 <= i < n ensures t.ready[i].Some? <==> InWindow(n, t, i) {
      if j :| |s.polled| <= j < a && j % n == i {
        assert InWindow(n, t, i);
      }
      if i == a % n {
        assert |t.polled| <= a < |t.accepted| && a % n == i;
      }
    }
    forall j | |t.polled| <= j < a ensures t.ready[j % n] == Some(j) {
      Different(n, s, j, a);
    }
  }

  lemma CpuKeeps(n: nat, s: State, step: Step)
    requires Inv(n, s) && Enabled(n, s, step) && (step.Poll? || step.Copy?)
    ensures Inv(n, After(n, s, step))
  {
    var t, p := After(n, s, step), |s.polled|;
    assert forall i | 0 <= i < n :: InWindow(n, t, i) == InWindow(n, s, i);
    if step.Copy? {
      LatestIsRead(s.data[s.head], p, s.accepted[p], step.k, s.known);
    }
  }

  lemma ClearKeeps(n: nat, s: State)
    requires Inv(n, s) && Enabled(n, s, Clear)
    ensures Inv(n, After(n, s, Clear))
  {
    var t, p := After(n, s, Clear), |s.polled|;
    NextHead(p, n);
    forall i | 0 <= i < n ensures t.ready[i].Some? <==> InWindow(n, t, i) {
      if j :| p <= j < |s.accepted| && j % n == i && i != p % n {
        assert j != p;
        assert |t.polled| <= j < |t.accepted| && j % n == i;
      }
      if j :| p + 1 <= j < |s.accepted| && j % n == i {
        Different(n, s, p, j);
        assert InWindow(n, s, i);
      }
    }
  }

  lemma NextHead(p: nat, n: nat)
    requires n > 0
    ensures (p % n + 1) % n == (p + 1) % n
  {
    var q, r := p / n, p % n;
    assert p == q * n + r;
    if r + 1 == n {
      assert p + 1 == (q + 1) * n + 0;
      QuotientIsUnique(p + 1, n, q + 1, 0);
      QuotientIsUnique(r + 1, n, 1, 0);
    } else {
      QuotientIsUnique(p + 1, n, q, r + 1);
      QuotientIsUnique(r + 1, n, 0, r + 1);
    }
  }

  predicate IsRun(n: nat, steps: seq<Step>)
    decreases |steps|, 0
  {
    steps == [] || (IsRun(n, steps[..|steps| - 1]) && Enabled(n, Reached(n, steps[..|steps| - 1]), steps[|steps| - 1]))
  }

  function Reached(n: nat, steps: seq<Step>): State
    requires IsRun(n, steps)
    decreases |steps|, 1
  {
    if steps == [] then Initial(n) else After(n, Reached(n, steps[..|steps| - 1]), steps[|steps| - 1])
  }

  /**
   * Every interleaving: packets come out in order, the ready descriptors are exactly the window, and when both sides
   * are at work they are at different descriptors. While the CPU owns one, every write to it happens before the read.
   */
  lemma {:induction false} HandOff(n: nat, steps: seq<Step>)
    requires n > 0 && IsRun(n, steps)
    ensures var s := Reached(n, steps);
      && Inv(n, s)
      && (!s.nic.Idle? && !s.cpu.Polling? ==> |s.accepted| % n != s.head)
      && (!s.nic.Idle? ==> s.ready[|s.accepted| % n] == None)
      && (!s.cpu.Polling? ==> s.ready[s.head] == Some(|s.polled|))
      && (s.cpu.Owned? ==> forall w | w in s.data[s.head] :: w.index < s.known)
  {
    hide After, Enabled, InWindow;
    if steps == [] {
      InitialInv(n);
    } else {
      HandOff(n, steps[..|steps| - 1]);
      StepKeeps(n, Reached(n, steps[..|steps| - 1]), steps[|steps| - 1]);
    }
    var s := Reached(n, steps);
    FullIff(n, s);
    if !s.cpu.Polling? {
      WindowStart(n, s);
      assert Holds(s.data[s.head], |s.polled|, s.accepted[|s.polled|]);
      if !s.nic.Idle? {
        Different(n, s, |s.polled|, |s.accepted|);
      }
    }
  }

  lemma WindowStart(n: nat, s: State)
    requires n > 0 && |s.polled| < |s.accepted|
    ensures InWindow(n, s, |s.polled| % n)
  {
  }

  lemma InitialInv(n: nat)
    requires n > 0
    ensures Inv(n, Initial(n))
  {
  }

  lemma StepKeeps(n: nat, s: State, step: Step)
    requires Inv(n, s) && Enabled(n, s, step)
    ensures Inv(n, After(n, s, step))
  {
    hide Inv, After;
    match step
    case Check(_, _) => NicKeeps(n, s, step);
    case Write => NicKeeps(n, s, step);
    case Signal => SignalKeeps(n, s);
    case Poll(_) => CpuKeeps(n, s, step);
    case Copy(_) => CpuKeeps(n, s, step);
    case Clear => ClearKeeps(n, s);
  }

  // ---- What each side is answered ----

  /** With an up-to-date flag a packet is refused exactly when the ring is full; an old flag can only refuse it too. */
  lemma RefusedWhenFull(n: nat, s: State, packet: int)
    requires Inv(n, s) && s.nic.Idle?
    ensures var full := |s.accepted| == |s.polled| + n;
      && Enabled(n, s, Check(packet, full))
      && After(n, s, Check(packet, full)) == (if full then s else s.(nic := Filling(packet)))
      && (full ==> !Enabled(n, s, Check(packet, false)))
  {
    FullIff(n, s);
  }

  /** With room, the three steps of receiving take the packet in behind the others and hand its descriptor over. */
  lemma TakenIn(n: nat, s: State, packet: int)
    requires Inv(n, s) && s.nic.Idle? && |s.accepted| < |s.polled| + n
    ensures Enabled(n, s, Check(packet, false))
    ensures var s1 := After(n, s, Check(packet, false));
      && Enabled(n, s1, Step.Write) && Enabled(n, After(n, s1, Step.Write), Signal)
      && var t := After(n, After(n, s1, Step.Write), Signal);
        && t.accepted == s.accepted + [packet] && t.polled == s.polled
        && t.ready == s.ready[|s.accepted| % n := Some(|s.accepted|)]
        && t.nic == Idle && t.cpu == s.cpu
  {
    hide Inv;
    RefusedWhenFull(n, s, packet);
  }

  /** With an up-to-date flag a poll finds a packet exactly when one is waiting; an old flag never invents one. */
  lemma FoundWhenWaiting(n: nat, s: State)
    requires Inv(n, s) && s.cpu.Polling?
    ensures var waiting := |s.polled| < |s.accepted|;
      && Enabled(n, s, Poll(waiting))
      && (!waiting ==> !Enabled(n, s, Poll(true)) && After(n, s, Poll(false)) == s)
  {
    if |s.polled| < |s.accepted| {
      WindowStart(n, s);
    } else {
      assert !InWindow(n, s, s.head);
    }
  }

  /** A poll that finds a packet hands out the oldest one, whichever write it may read, and frees its descriptor. */
  lemma HandedOut(n: nat, s: State)
    requires Inv(n, s) && s.cpu.Polling? && |s.polled| < |s.accepted|
    ensures Enabled(n, s, Poll(true))
    ensures var s1 := After(n, s, Poll(true));
      && (exists k: nat :: Enabled(n, s1, Copy(k)))
      && forall k: nat | Enabled(n, s1, Copy(k)) ::
          Enabled(n, After(n, s1, Copy(k)), Clear) && Freed(n, s, After(n, After(n, s1, Copy(k)), Clear))
  {
    FoundWhenWaiting(n, s);
    var s1, p := After(n, s, Poll(true)), |s.polled|;
    CpuKeeps(n, s, Poll(true));
    assert Holds(s.data[p % n], p, s.accepted[p]);
    assert Enabled(n, s1, Copy(|s1.data[s1.head]| - 1));
    forall k: nat | Enabled(n, s1, Copy(k))
      ensures Enabled(n, After(n, s1, Copy(k)), Clear) && Freed(n, s, After(n, After(n, s1, Copy(k)), Clear))
    {
      LatestIsRead(s1.data[s1.head], p, s.accepted[p], k, s1.known);
    }
  }

  predicate Freed(n: nat, s: State, t: State)
    requires Shaped(n, s) && |s.polled| < |s.accepted|
  {
    && t.polled == s.polled + [s.accepted[|s.polled|]] && t.accepted == s.accepted
    && t.ready == s.ready[s.head := None] && t.head == (s.head + 1) % n
    && t.cpu == Polling && t.nic == s.nic
  }

  // ---- Over every run: what goes in is what was offered and not refused ----

  function Offered(steps: seq<Step>): seq<int> {
    if steps == [] then []
    else
      var last := steps[|steps| - 1];
      Offered(steps[..|steps| - 1]) + if last.Check? && !last.flag then [last.packet] else []
  }

  function Signals(steps: seq<Step>): nat {
    if steps == [] then 0 else Signals(steps[..|steps| - 1]) + if steps[|steps| - 1].Signal? then 1 else 0
  }

  function Clears(steps: seq<Step>): nat {
    if steps == [] then 0 else Clears(steps[..|steps| - 1]) + if steps[|steps| - 1].Clear? then 1 else 0
  }

  /**
   * At every interleaving: accepted are the packets not refused, in order, as far as they have been signalled, and
   * polled are the first of those, as many as descriptors have been cleared.
   */
  lemma {:induction false} InAndOut(n: nat, steps: seq<Step>)
    requires n > 0 && IsRun(n, steps)
    ensures var s := Reached(n, steps);
      && Offered(steps) == s.accepted + InHand(s) && |s.accepted| == Signals(steps)
      && s.polled <= Offered(steps) && |s.polled| == Clears(steps)
  {
    hide Inv, After, Enabled, InHand;
    HandOff(n, steps);
    if steps == [] {
      NothingInHand(n);
    } else {
      InAndOut(n, steps[..|steps| - 1]);
      StepInAndOut(n, Reached(n, steps[..|steps| - 1]), steps[|steps| - 1]);
    }
    PolledFirst(n, Reached(n, steps));
    PrefixOfMore(Reached(n, steps).polled, Reached(n, steps).accepted, InHand(Reached(n, steps)));
  }

  /** The packet that the NIC has not refused and not yet signalled. */
  function InHand(s: State): seq<int> {
    if s.nic.Idle? then [] else [s.nic.data]
  }

  lemma NothingInHand(n: nat)
    ensures InHand(Initial(n)) == []
  {
  }

  lemma StepInAndOut(n: nat, s: State, step: Step)
    requires Enabled(n, s, step)
    ensures var t := After(n, s, step);
      && t.accepted + InHand(t) ==
          s.accepted + InHand(s) + (if step.Check? && !step.flag then [step.packet] else [])
      && |t.accepted| == |s.accepted| + (if step.Signal? then 1 else 0)
      && |t.polled| == |s.polled| + (if step.Clear? then 1 else 0)
  {
  }

  lemma PolledFirst(n: nat, s: State)
    requires Inv(n, s)
    ensures s.polled <= s.accepted
  {
  }

  lemma PrefixOfMore(a: seq<int>, b: seq<int>, more: seq<int>)
    requires a <= b
    ensures a <= b + more
  {
  }
}
