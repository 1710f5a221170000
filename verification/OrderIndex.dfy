/** OrderIndex: an open-addressing hash table that behaves as a finite map. */
module OrderIndexes {
  import opened Basics
  import opened BigEndian
  import opened Bits
  import opened ProbeTable

  const PHI: nat := 0x9E37_79B9_7F4A_7C15

  /** Fibonacci hashing: multiply modulo 2^64, keep the bits above `shift`. */
  function Hash(key: u64): nat {
    key * PHI % WORD
  }

  function HomeAt(key: u64, shift: nat): nat {
    Shr(Hash(key), shift)
  }

  ghost function Homes(shift: nat): Home {
    (k: u64) => HomeAt(k, shift)
  }

  lemma HomesFit(bits: nat)
    requires bits <= 64
    ensures HomesIn(Homes(64 - bits), Pow2(bits))
  {
    hide Pow2, Hash, Shr, HomeAt;
    Pow2Values();
    var shift := 64 - bits;
    forall k: u64 ensures Homes(shift)(k) < Pow2(bits) {
      HomeFits(k, bits);
    }
  }

  lemma HomeFits(k: u64, bits: nat)
    requires bits <= 64
    ensures HomeAt(k, 64 - bits) < Pow2(bits)
  {
    hide Pow2, Shr;
    Pow2Values();
    ShiftFits(Hash(k), bits, 64 - bits);
  }

  lemma AndMaskNext(i: nat, bits: nat)
    requires i < Pow2(bits)
    ensures And(i + 1, Pow2(bits) - 1) == ProbeTable.Next(i, Pow2(bits))
  {
    hide And, Pow2;
    AndMask(i + 1, bits);
    ModNext(i, Pow2(bits));
  }

  lemma ModNext(i: nat, n: nat)
    requires i < n
    ensures (i + 1) % n == ProbeTable.Next(i, n)
  {
    if i + 1 == n {
      QuotientIsUnique(i + 1, n, 1, 0);
    } else {
      QuotientIsUnique(i + 1, n, 0, i + 1);
    }
  }

  lemma Doubling(k: nat)
    ensures Pow2(k + 1) == 2 * Pow2(k)
    ensures k > 0 ==> Pow2(k) == 2 * Pow2(k - 1)
  {
  }

  lemma EmptyTable<V>(s: seq<Slot<V>>, h: Home, bits: nat)
    requires bits <= 64 && |s| == Pow2(bits) && h == Homes(64 - bits)
    requires forall i | 0 <= i < |s| :: s[i].key == EMPTY
    ensures Table(s, map[], h)
  {
    HomesFit(bits);
  }

  // ---- Rehashing, entry by entry ----

  /** `now` has exactly the entries of `all` found in the first `i` slots of the old array. */
  ghost predicate MovedUpTo<V>(was: seq<Slot<V>>, i: nat, now: map<u64, V>, all: map<u64, V>)
    requires i <= |was|
  {
    && Holds(was, all, -1)
    && (forall k | k in now :: k in all && now[k] == all[k])
    && (forall k :: k in now <==> k != EMPTY && exists x :: 0 <= x < i && was[x].key == k)
  }

  lemma MovedNone<V>(was: seq<Slot<V>>, all: map<u64, V>)
    requires Holds(was, all, -1)
    ensures MovedUpTo(was, 0, map[], all)
  {
  }

  lemma MovedRoom<V>(was: seq<Slot<V>>, i: nat, now: map<u64, V>, all: map<u64, V>)
    requires i < |was| && MovedUpTo(was, i, now, all) && was[i].key != EMPTY
    ensures was[i].key !in now && |now| + 1 <= |all|
  {
    Subset(now.Keys + {was[i].key}, all.Keys);
  }

  lemma MovedStep<V>(was: seq<Slot<V>>, i: nat, before: map<u64, V>, all: map<u64, V>)
    requires i < |was| && MovedUpTo(was, i, before, all) && was[i].key != EMPTY
    ensures MovedUpTo(was, i + 1, before[was[i].key := was[i].value], all)
  {
    var now := before[was[i].key := was[i].value];
    forall k ensures k in now <==> k != EMPTY && exists x :: 0 <= x < i + 1 && was[x].key == k {
      if k in before {
        var x :| 0 <= x < i && was[x].key == k;
      }
    }
  }

  lemma MovedSkip<V>(was: seq<Slot<V>>, i: nat, now: map<u64, V>, all: map<u64, V>)
    requires i < |was| && MovedUpTo(was, i, now, all) && was[i].key == EMPTY
    ensures MovedUpTo(was, i + 1, now, all)
  {
  }

  lemma RemoveCount<V>(m: map<u64, V>, k: u64)
    requires k in m
    ensures |m - {k}| == |m| - 1
  {
    assert (m - {k}).Keys == m.Keys - {k};
  }

  lemma MovedAll<V>(was: seq<Slot<V>>, now: map<u64, V>, all: map<u64, V>)
    requires MovedUpTo(was, |was|, now, all)
    ensures now == all
  {
  }

  class OrderIndex<V(0)> {
    var slots: array<Slot<V>>
    var mask: nat
    var shift: nat
    var size: nat
    ghost var bits: nat
    ghost var contents: map<u64, V>

    ghost predicate Valid()
      reads this, slots
    {
      && Shaped()
      && Table(slots[..], contents, Homes(shift))
      && size == |contents|
      && 2 * size <= slots.Length
    }

    /** The capacity is 2^bits, at least 16; mask and shift belong to it. */
    ghost predicate Shaped()
      reads this
    {
      4 <= bits <= 63 && slots.Length == Pow2(bits) && mask == slots.Length - 1 && shift == 64 - bits
    }

    /** Requires exactly what the capacity's doubling loop needs in order to end. */
    constructor (expectedEntries: u64)
      requires Goal(expectedEntries) <= 0x8000_0000_0000_0000
      ensures Valid() && contents == map[] && fresh(slots)
      ensures slots.Length >= Goal(expectedEntries) && (slots.Length == 16 || slots.Length < 2 * Goal(expectedEntries))
    {
      slots := new Slot<V>[0];
      mask, shift, size, bits, contents := 0, 64, 0, 0, map[];
      new;
      var c, k := CapacityFor(expectedEntries);
      Rehash(c, k);
    }

    /** The probe loop of find, tryInsert, erase and placeUnique: to the key, or to an empty slot. */
    method Probe(key: u64) returns (i: nat)
      requires Shaped() && Table(slots[..], contents, Homes(shift)) && |contents| < slots.Length
      ensures i < slots.Length && HomesIn(Homes(shift), slots.Length) && Probed(slots[..], Homes(shift), key, i)
      ensures slots[i].key == key || slots[i].key == EMPTY
    {
      hide HomeAt, Homes, Reachable, OnPath, Holds, Pow2;
      ghost var h := Homes(shift);
      ghost var e := EmptySlot(slots[..], contents);
      i := Start(key);
      ProbeStart(slots[..], h, key);
      hide Probed, Dist, ProbeTable.Next;
      while slots[i].key != key && slots[i].key != EMPTY
        invariant i < slots.Length && Probed(slots[..], h, key, i)
        invariant Dist(h(key), i, slots.Length) <= Dist(h(key), e, slots.Length)
        decreases slots.Length - Dist(h(key), i, slots.Length)
      {
        ProbeNext(slots[..], h, key, i, e);
        i := Step(i);
      }
    }

    method Find(key: u64) returns (r: Option<V>)
      requires Valid()
      ensures r == if key in contents then Some(contents[key]) else None
    {
      hide HomeAt, Homes, Reachable, Probed;
      if key == EMPTY {
        return None;
      }
      var i := Probe(key);
      if slots[i].key == key {
        return Some(slots[i].value);
      }
      ProbeMiss(slots[..], contents, Homes(shift), key, i);
      return None;
    }

    /**
     * Never overwrites. The table grows before the key is looked for, so a refused key leaves it alone exactly when
     * it is the reserved one or the table is not yet half full.
     */
    method TryInsert(key: u64, value: V) returns (ok: bool)
      requires Valid() && |contents| < 0x4000_0000_0000_0000
      modifies this, slots
      ensures Valid() && (slots == old(slots) || fresh(slots))
      ensures ok <==> key != EMPTY && key !in old(contents)
      ensures contents == if ok then old(contents)[key := value] else old(contents)
      ensures slots.Length == if Grows(key, |old(contents)|, old(slots.Length)) then 2 * old(slots.Length)
          else old(slots.Length)
      ensures !ok ==> (slots == old(slots) && slots[..] == old(slots[..]) <==>
          !Grows(key, |old(contents)|, old(slots.Length)))
    {
      hide HomeAt, Homes, Reachable, Probed, Pow2;
      if key == EMPTY {
        return false;
      }
      if (size + 1) * 2 > slots.Length {
        GrowthFits();
        Rehash(slots.Length * 2, bits + 1);
      }
      var i := Probe(key);
      if slots[i].key == key {
        return false;
      }
      Place(i, key, value);
      return true;
    }

    method Erase(key: u64) returns (ok: bool)
      requires Valid()
      modifies this, slots
      ensures Valid() && slots == old(slots)
      ensures ok <==> key in old(contents)
      ensures contents == old(contents) - {key}
    {
      hide HomeAt, Homes, Table, Probed, Pow2, Shifting, Holds;
      ghost var e := TableHasRoom(slots[..], contents, Homes(shift));
      assert key !in contents ==> contents - {key} == contents;
      if key == EMPTY {
        return false;
      }
      var hole := Probe(key);
      if slots[hole].key == EMPTY {
        ProbeMiss(slots[..], contents, Homes(shift), key, hole);
        return false;
      }
      EraseAt(hole, e);
      return true;
    }

    /** Takes out the entry at `hole` and closes the gap. */
    method EraseAt(hole: nat, ghost e: nat)
      requires Valid() && hole < slots.Length && slots[hole].key != EMPTY
      requires e < slots.Length && slots[e].key == EMPTY
      modifies slots, `size, `contents
      ensures Valid() && old(slots[hole].key) in old(contents) && contents == old(contents) - {old(slots[hole].key)}
    {
      hide HomeAt, Homes, Table, Pow2, Shifting, Holds;
      ShiftBegins(slots[..], contents, Homes(shift), hole);
      RemoveCount(contents, slots[hole].key);
      contents := contents - {slots[hole].key};
      CloseHole(hole, e);
      size := size - 1;
    }

    /** Writes an absent key where its probe ended. */
    method Place(i: nat, key: u64, value: V)
      requires Valid() && i < slots.Length && key != EMPTY && slots[i].key == EMPTY
      requires HomesIn(Homes(shift), slots.Length) && Probed(slots[..], Homes(shift), key, i)
      requires 2 * (|contents| + 1) <= slots.Length
      modifies slots, `size, `contents
      ensures Valid() && key !in old(contents) && contents == old(contents)[key := value]
    {
      hide HomeAt, Homes, Table, Probed, Pow2;
      ProbeMiss(slots[..], contents, Homes(shift), key, i);
      InsertKeeps(slots[..], contents, Homes(shift), key, value, i);
      slots[i] := Slot(key, value);
      size := size + 1;
      contents := contents[key := value];
      assert slots[..] == old(slots[..])[i := Slot(key, value)];
    }

    /** The backward shift: move entries back over the hole until the cluster ends. */
    method CloseHole(start: nat, ghost e: nat)
      requires Shaped() && start < slots.Length && e < slots.Length && e != start && slots[e].key == EMPTY
      requires Shifting(slots[..], contents, Homes(shift), start, ProbeTable.Next(start, slots.Length))
      modifies slots
      ensures Table(slots[..], contents, Homes(shift))
    {
      hide HomeAt, Holds, Paths, Cluster, Pow2, Table, Shifting;
      HomesFit(bits);
      ghost var h := Homes(shift);
      var hole: nat := start;
      var j: nat := Step(hole);
      while slots[j].key != EMPTY
        invariant hole < slots.Length && j < slots.Length && e != hole && slots[e].key == EMPTY
        invariant Shifting(slots[..], contents, h, hole, j)
        invariant Dist(hole, j, slots.Length) <= Dist(hole, e, slots.Length)
        decreases Dist(j, e, slots.Length)
      {
        var at := HomeAt(slots[j].key, shift);
        var stays := if hole < j then hole < at && at <= j else hole < at || at <= j;
        if stays {
          ShiftPasses(slots[..], contents, h, hole, j, e);
        } else {
          ShiftMoves(slots[..], contents, h, hole, j, e);
          ghost var before := slots[..];
          slots[hole] := slots[j];
          assert slots[..] == before[hole := before[j]];
          hole := j;
        }
        j := Step(j);
      }
      ShiftEnds(slots[..], contents, h, hole, j);
      ghost var before := slots[..];
      slots[hole] := slots[hole].(key := EMPTY);
      assert slots[..] == before[hole := before[hole].(key := EMPTY)];
    }

    static method CapacityFor(entries: u64) returns (c: u64, ghost k: nat)
      requires Goal(entries) <= 0x8000_0000_0000_0000
      ensures 4 <= k <= 63 && c == Pow2(k)
      ensures c >= Goal(entries) && (c == 16 || c < 2 * Goal(entries))
    {
      hide Pow2;
      Pow2Values();
      c, k := 16, 4;
      while c < entries * 2 % WORD
        invariant 4 <= k <= 63 && c == Pow2(k) && (c == 16 || c < 2 * Goal(entries))
        decreases Goal(entries) - c
      {
        CanDouble(k, Goal(entries));
        c, k := c * 2 % WORD, k + 1;
      }
    }

    /** Doubling a table whose entries need it stays below 2^64. */
    lemma GrowthFits()
      requires Valid() && (size + 1) * 2 > slots.Length && |contents| < 0x4000_0000_0000_0000
      ensures bits <= 62 && slots.Length * 2 == Pow2(bits + 1)
    {
      Pow2Values();
    }

    /** A new, empty array of the given capacity. */
    method Blank(newCapacity: nat, ghost newBits: nat)
      requires 4 <= newBits <= 63 && newCapacity == Pow2(newBits)
      modifies this
      ensures Valid() && contents == map[] && fresh(slots) && slots.Length == newCapacity && bits == newBits
    {
      hide HomeAt, Homes, Table, Pow2;
      var none: V := *;
      slots := new Slot<V>[newCapacity](_ => Slot(EMPTY, none));
      mask := newCapacity - 1;
      shift := ShiftFor(newCapacity, newBits);
      size := 0;
      bits := newBits;
      contents := map[];
      EmptyTable(slots[..], Homes(shift), newBits);
    }

    /** Moves every entry into a new array of the given capacity. */
    method Rehash(newCapacity: nat, ghost newBits: nat)
      requires 4 <= newBits <= 63 && newCapacity == Pow2(newBits)
      requires Holds(slots[..], contents, -1) && 2 * |contents| <= newCapacity
      modifies this
      ensures Valid() && contents == old(contents) && fresh(slots) && slots.Length == newCapacity
    {
      hide HomeAt, Homes, Holds, Reachable, Pow2, MovedUpTo, Table;
      var was := slots;
      Blank(newCapacity, newBits);
      MovedNone(was[..], old(contents));
      for i := 0 to was.Length
        invariant Valid() && fresh(slots) && slots.Length == newCapacity && slots != was && was == old(slots)
        invariant bits == newBits
        invariant was[..] == old(slots[..])
        invariant MovedUpTo(was[..], i, contents, old(contents))
      {
        if was[i].key != EMPTY {
          MovedRoom(was[..], i, contents, old(contents));
          MovedStep(was[..], i, contents, old(contents));
          PlaceUnique(was[i].key, was[i].value);
        } else {
          MovedSkip(was[..], i, contents, old(contents));
        }
      }
      MovedAll(was[..], contents, old(contents));
    }

    method ShiftFor(newCapacity: nat, ghost newBits: nat) returns (s: nat)
      requires newBits <= 63 && newCapacity == Pow2(newBits)
      ensures s == 64 - newBits
    {
      s := 64;
      var c := newCapacity;
      while c > 1
        invariant 64 - newBits <= s <= 64 && c == Pow2(newBits - (64 - s))
        decreases s
      {
        c := c / 2;
        s := s - 1;
      }
    }

    method PlaceUnique(key: u64, value: V)
      requires Valid() && key != EMPTY && key !in contents && 2 * (|contents| + 1) <= slots.Length
      modifies slots, `size, `contents
      ensures Valid() && contents == old(contents)[key := value]
    {
      hide HomeAt, Homes, Reachable, Probed, Pow2;
      var i := Probe(key);
      assert slots[i].key == EMPTY;
      Place(i, key, value);
    }

    /** The home slot, in range. */
    method Start(key: u64) returns (i: nat)
      requires Shaped()
      ensures i == Homes(shift)(key) && HomesIn(Homes(shift), slots.Length)
    {
      hide HomeAt, Pow2;
      HomesFit(bits);
      i := HomeAt(key, shift);
    }

    method Step(i: nat) returns (j: nat)
      requires Shaped() && i < slots.Length
      ensures j == ProbeTable.Next(i, slots.Length)
    {
      hide And, Pow2;
      AndMaskNext(i, bits);
      j := And(i + 1, mask);
    }
  }

  // ---- Where the table grows, and where capacityFor ends ----

  /** When tryInsert doubles the table, whether or not it then adds the key. */
  predicate Grows(key: u64, size: nat, capacity: nat) {
    key != EMPTY && 2 * (size + 1) > capacity
  }

  /** A false answer that nevertheless changed the table: eight keys in sixteen slots, and one of them again. */
  method RefusedInsertGrows() returns (index: OrderIndex<nat>, before: nat, ok: bool)
    ensures fresh(index) && index.Valid() && |index.contents| == 8 && 0 in index.contents
    ensures !ok && before == 16 && index.slots.Length == 32
  {
    hide OrderIndex.Valid, OrderIndex.Shaped;
    index := new OrderIndex<nat>(0);
    for i := 0 to 8
      invariant fresh(index) && fresh(index.slots) && index.Valid() && index.slots.Length == 16
      invariant |index.contents| == i && forall k: u64 :: k in index.contents <==> k < i
    {
      ok := index.TryInsert(i, 0);
    }
    before := index.slots.Length;
    ok := index.TryInsert(0, 0);
  }

  /** What the capacity must reach: twice the entries, as a 64-bit product. */
  function Goal(entries: u64): nat {
    entries * 2 % WORD
  }

  /** The k-th value of capacityFor's doubling, in 64-bit arithmetic. */
  function Doubled(k: nat): nat {
    if k == 0 then 16 else Doubled(k - 1) * 2 % WORD
  }

  lemma CanDouble(k: nat, goal: nat)
    requires k <= 63 && Pow2(k) < goal <= 0x8000_0000_0000_0000
    ensures k <= 62 && Pow2(k + 1) == 2 * Pow2(k) <= 0x8000_0000_0000_0000
  {
    hide Pow2;
    Pow2Values();
    Doubling(k);
    if k <= 62 {
      Pow2Monotone(k + 1, 63);
    }
  }

  lemma {:induction false} DoubledIs(k: nat)
    ensures Doubled(k) == if k <= 59 then 16 * Pow2(k) else 0
    ensures k <= 59 ==> Doubled(k) <= 0x8000_0000_0000_0000
  {
    hide Pow2;
    SixteenTimes(k);
    if k > 0 {
      DoubledIs(k - 1);
      Wraps(Doubled(k - 1));
    }
  }

  lemma Wraps(c: nat)
    requires c <= 0x8000_0000_0000_0000
    ensures c * 2 % WORD == if c < 0x8000_0000_0000_0000 then c * 2 else 0
  {
  }

  lemma SixteenTimes(k: nat)
    ensures k == 0 ==> Pow2(k) == 1
    ensures k > 0 ==> Pow2(k) == 2 * Pow2(k - 1)
    ensures k <= 59 ==> 16 * Pow2(k) <= 0x8000_0000_0000_0000
    ensures k == 60 ==> 16 * Pow2(k) == WORD
  {
    hide Pow2;
    Pow2Zero();
    Doubling(k);
    SixtyThree();
    if k <= 59 {
      Pow2Monotone(k, 59);
    }
  }

  lemma SixtyThree()
    ensures 16 * Pow2(59) == 0x8000_0000_0000_0000 && 16 * Pow2(60) == WORD
  {
    hide Pow2;
    Pow2Values();
    Pow2Sum(4, 59);
    Pow2Sum(4, 60);
  }

  lemma Pow2Zero()
    ensures Pow2(0) == 1
  {
  }

  /** The doubling reaches its goal exactly when that is at most 2^63. */
  lemma CapacityForEndsIff(entries: u64)
    ensures (exists k: nat :: Doubled(k) >= Goal(entries)) <==> Goal(entries) <= 0x8000_0000_0000_0000
  {
    hide Pow2, Goal;
    SixtyThree();
    DoubledIs(59);
    forall k: nat ensures Doubled(k) <= Doubled(59) {
      DoubledIs(k);
    }
  }

  /** One entry past 2^62 the doubling never reaches its goal. */
  lemma CapacityForNeverEnds(k: nat)
    ensures Doubled(k) < Goal(0x4000_0000_0000_0001)
  {
    CapacityForEndsIff(0x4000_0000_0000_0001);
  }

  /** Twice 2^63 entries wraps to nothing, which the first capacity already covers: the table has 16 slots. */
  method WrappedRequest() returns (index: OrderIndex<nat>)
    ensures fresh(index) && index.Valid() && index.contents == map[] && index.slots.Length == 16
    ensures Goal(0x8000_0000_0000_0000) == 0
  {
    hide OrderIndex.Valid, OrderIndex.Shaped;
    index := new OrderIndex<nat>(0x8000_0000_0000_0000);
  }
}
