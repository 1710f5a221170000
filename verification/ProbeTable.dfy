/** Linear probing on a ring of slots: what keeps every key reachable from its home. */
module ProbeTable {
  import opened BigEndian

  const EMPTY: u64 := MAX_U64

  datatype Slot<V> = Slot(key: u64, value: V)

  /** Steps from slot `a` to slot `b` around a ring of `n`. */
  function Dist(a: nat, b: nat, n: nat): (d: nat)
    requires a < n && b < n
    ensures d < n
  {
    if a <= b then b - a else b + n - a
  }

  function Next(i: nat, n: nat): (j: nat)
    requires i < n
    ensures j < n
  {
    if i + 1 == n then 0 else i + 1
  }

  type Home = u64 -> nat

  ghost predicate HomesIn(h: Home, n: nat) {
    forall k: u64 :: h(k) < n
  }

  /** Slot `x` lies on the probe path from `k`'s home up to, not including, slot `i`. */
  ghost predicate OnPath(h: Home, n: nat, k: u64, x: nat, i: nat)
    requires HomesIn(h, n) && x < n && i < n
  {
    Dist(h(k), x, n) < Dist(h(k), i, n)
  }

  /** The occupied slots other than `skip` are exactly the entries of `m`. */
  ghost predicate Holds<V>(s: seq<Slot<V>>, m: map<u64, V>, skip: int) {
    && EMPTY !in m
    && (forall i | 0 <= i < |s| && i != skip && s[i].key != EMPTY :: s[i].key in m && m[s[i].key] == s[i].value)
    && (forall k | k in m :: exists i :: 0 <= i < |s| && i != skip && s[i].key == k)
    && (forall i, j | 0 <= i < j < |s| && i != skip && j != skip && s[i].key != EMPTY :: s[i].key != s[j].key)
  }

  /** No probe path to an entry crosses an empty slot. */
  ghost predicate Reachable<V>(s: seq<Slot<V>>, h: Home)
    requires HomesIn(h, |s|)
  {
    forall i, x | 0 <= i < |s| && s[i].key != EMPTY && 0 <= x < |s| && OnPath(h, |s|, s[i].key, x, i) ::
        s[x].key != EMPTY
  }

  ghost predicate Table<V>(s: seq<Slot<V>>, m: map<u64, V>, h: Home) {
    HomesIn(h, |s|) && Holds(s, m, -1) && Reachable(s, h)
  }

  // ---- Room ----

  function KeysUpTo<V>(s: seq<Slot<V>>, n: nat): set<u64>
    requires n <= |s|
  {
    if n == 0 then {} else KeysUpTo(s, n - 1) + {s[n - 1].key}
  }

  lemma {:induction false} InKeys<V>(s: seq<Slot<V>>, n: nat, k: u64)
    requires n <= |s|
    ensures k in KeysUpTo(s, n) <==> exists i :: 0 <= i < n && s[i].key == k
  {
    if n > 0 {
      InKeys(s, n - 1, k);
    }
  }

  lemma {:induction false} KeyCount<V>(s: seq<Slot<V>>, n: nat)
    requires n <= |s| && forall i, j | 0 <= i < j < n :: s[i].key != s[j].key
    ensures |KeysUpTo(s, n)| == n
  {
    if n > 0 {
      KeyCount(s, n - 1);
      InKeys(s, n - 1, s[n - 1].key);
    }
  }

  lemma Subset<T>(a: set<T>, b: set<T>)
    requires a <= b
    ensures |a| <= |b|
  {
    assert b == a + (b - a);
  }

  /** A table with more slots than entries has an empty one, so every probe ends. */
  lemma EmptySlot<V>(s: seq<Slot<V>>, m: map<u64, V>) returns (e: nat)
    requires Holds(s, m, -1) && |m| < |s|
    ensures e < |s| && s[e].key == EMPTY
  {
    if forall i | 0 <= i < |s| :: s[i].key != EMPTY {
      KeyCount(s, |s|);
      forall k | k in KeysUpTo(s, |s|) ensures k in m {
        InKeys(s, |s|, k);
      }
      Subset(KeysUpTo(s, |s|), m.Keys);
      assert false;
    }
    e :| e < |s| && s[e].key == EMPTY;
  }

  lemma TableHasRoom<V>(s: seq<Slot<V>>, m: map<u64, V>, h: Home) returns (e: nat)
    requires Table(s, m, h) && |m| < |s|
    ensures e < |s| && s[e].key == EMPTY && EMPTY !in m
  {
    e := EmptySlot(s, m);
  }

  // ---- Probing ----

  /** The path from `key`'s home up to `i` holds neither the key nor an empty slot. */
  ghost predicate Probed<V>(s: seq<Slot<V>>, h: Home, key: u64, i: nat)
    requires HomesIn(h, |s|) && i < |s|
  {
    forall x | 0 <= x < |s| && OnPath(h, |s|, key, x, i) :: s[x].key != EMPTY && s[x].key != key
  }

  lemma ProbeStart<V>(s: seq<Slot<V>>, h: Home, key: u64)
    requires HomesIn(h, |s|)
    ensures Probed(s, h, key, h(key))
    ensures forall e | 0 <= e < |s| :: Dist(h(key), h(key), |s|) <= Dist(h(key), e, |s|)
  {
  }

  lemma ProbeNext<V>(s: seq<Slot<V>>, h: Home, key: u64, i: nat, e: nat)
    requires HomesIn(h, |s|) && i < |s| && e < |s| && Probed(s, h, key, i)
    requires s[e].key == EMPTY && Dist(h(key), i, |s|) <= Dist(h(key), e, |s|)
    requires s[i].key != EMPTY && s[i].key != key
    ensures var j := Next(i, |s|);
      Probed(s, h, key, j) && Dist(h(key), i, |s|) < Dist(h(key), j, |s|) <= Dist(h(key), e, |s|)
  {
  }

  /** An empty slot at the end of the probe means the key is absent. */
  lemma ProbeMiss<V>(s: seq<Slot<V>>, m: map<u64, V>, h: Home, key: u64, i: nat)
    requires Table(s, m, h) && i < |s| && Probed(s, h, key, i)
    requires key != EMPTY && s[i].key == EMPTY
    ensures key !in m
  {
    forall p | 0 <= p < |s| ensures s[p].key != key {
      assert p == i || OnPath(h, |s|, key, p, i) || OnPath(h, |s|, key, i, p);
    }
  }

  /** Writing an absent key where its probe ended. */
  lemma InsertKeeps<V>(s: seq<Slot<V>>, m: map<u64, V>, h: Home, key: u64, value: V, i: nat)
    requires Table(s, m, h) && i < |s| && Probed(s, h, key, i)
    requires key != EMPTY && key !in m && s[i].key == EMPTY
    ensures Table(s[i := Slot(key, value)], m[key := value], h)
  {
    hide Holds, Reachable;
    HoldsWith(s, m, key, value, i);
    ReachableWith(s, h, key, value, i);
  }

  lemma ReachableWith<V>(s: seq<Slot<V>>, h: Home, key: u64, value: V, i: nat)
    requires HomesIn(h, |s|) && Reachable(s, h) && i < |s| && Probed(s, h, key, i)
    requires key != EMPTY && s[i].key == EMPTY
    ensures Reachable(s[i := Slot(key, value)], h)
  {
  }

  lemma HoldsWith<V>(s: seq<Slot<V>>, m: map<u64, V>, key: u64, value: V, i: nat)
    requires Holds(s, m, -1) && i < |s| && key != EMPTY && key !in m && s[i].key == EMPTY
    ensures Holds(s[i := Slot(key, value)], m[key := value], -1)
  {
    var t, m' := s[i := Slot(key, value)], m[key := value];
    forall k | k in m' ensures exists p :: 0 <= p < |t| && t[p].key == k {
      if k == key {
        assert t[i].key == k;
      } else {
        var p :| 0 <= p < |s| && s[p].key == k;
        assert t[p].key == k;
      }
    }
    forall a, b | 0 <= a < b < |t| && t[a].key != EMPTY ensures t[a].key != t[b].key {
      assert a != i ==> s[a].key in m;
      assert b != i && s[b].key != EMPTY ==> s[b].key in m;
    }
  }

  // ---- Backward-shift deletion ----

  /**
   * Mid-erase: slot `hole` is to be vacated, and the cluster after it has been looked at up to `j`.
   * Only entries from `j` on may still have the hole on their probe path.
   */
  ghost predicate Shifting<V>(s: seq<Slot<V>>, m: map<u64, V>, h: Home, hole: nat, j: nat)
    requires hole < |s| && j < |s|
  {
    HomesIn(h, |s|) && hole != j && Holds(s, m, hole) && Cluster(s, hole, j) && Paths(s, h, hole, j)
  }

  /** Every slot from the hole up to `j` is occupied. */
  ghost predicate Cluster<V>(s: seq<Slot<V>>, hole: nat, j: nat)
    requires hole < |s| && j < |s|
  {
    forall x | 0 <= x < |s| && Dist(hole, x, |s|) < Dist(hole, j, |s|) :: s[x].key != EMPTY
  }

  ghost predicate Paths<V>(s: seq<Slot<V>>, h: Home, hole: nat, j: nat)
    requires hole < |s| && j < |s| && HomesIn(h, |s|)
  {
    forall i, x | 0 <= i < |s| && i != hole && s[i].key != EMPTY && 0 <= x < |s| && OnPath(h, |s|, s[i].key, x, i) ::
      s[x].key != EMPTY && (x == hole ==> Dist(hole, i, |s|) >= Dist(hole, j, |s|))
  }

  lemma ShiftBegins<V>(s: seq<Slot<V>>, m: map<u64, V>, h: Home, hole: nat)
    requires Table(s, m, h) && hole < |s| && |s| > 1 && s[hole].key != EMPTY
    ensures s[hole].key in m
    ensures Shifting(s, m - {s[hole].key}, h, hole, Next(hole, |s|))
  {
    hide Holds, Reachable, Paths;
    HoldsBut(s, m, hole);
    PathsBegin(s, h, hole);
  }

  /** Leaving out one slot leaves out its key. */
  lemma HoldsBut<V>(s: seq<Slot<V>>, m: map<u64, V>, hole: nat)
    requires Holds(s, m, -1) && hole < |s| && s[hole].key != EMPTY
    ensures s[hole].key in m && Holds(s, m - {s[hole].key}, hole)
  {
    var m' := m - {s[hole].key};
    forall k | k in m' ensures exists i :: 0 <= i < |s| && i != hole && s[i].key == k {
      var i :| 0 <= i < |s| && s[i].key == k;
      assert i != hole;
    }
  }

  lemma PathsBegin<V>(s: seq<Slot<V>>, h: Home, hole: nat)
    requires HomesIn(h, |s|) && Reachable(s, h) && hole < |s| && |s| > 1
    ensures Paths(s, h, hole, Next(hole, |s|))
  {
    forall i, x | 0 <= i < |s| && i != hole && s[i].key != EMPTY && 0 <= x < |s| && OnPath(h, |s|, s[i].key, x, i)
      ensures s[x].key != EMPTY && Dist(hole, i, |s|) >= Dist(hole, Next(hole, |s|), |s|)
    {
      NextIsOneAway(hole, i, |s|);
    }
  }

  lemma NextIsOneAway(hole: nat, i: nat, n: nat)
    requires n > 1 && hole < n && i < n && i != hole
    ensures Dist(hole, i, n) >= Dist(hole, Next(hole, n), n) == 1
  {
  }

  /** The entry at `j` is reachable past the hole: going around from the hole, its home `h` comes first. */
  predicate Stays(hole: nat, h: nat, j: nat) {
    if hole < j then hole < h <= j else hole < h || h <= j
  }

  lemma ShiftPasses<V>(s: seq<Slot<V>>, m: map<u64, V>, h: Home, hole: nat, j: nat, e: nat)
    requires hole < |s| && j < |s| && e < |s| && Shifting(s, m, h, hole, j)
    requires s[j].key != EMPTY && s[e].key == EMPTY && e != hole && Dist(hole, j, |s|) <= Dist(hole, e, |s|)
    requires Stays(hole, h(s[j].key), j)
    ensures Shifting(s, m, h, hole, Next(j, |s|))
    ensures Dist(hole, j, |s|) < Dist(hole, Next(j, |s|), |s|) <= Dist(hole, e, |s|)
  {
    hide Holds;
    var n, next := |s|, Next(j, |s|);
    SameDist(hole, j, e, n);
    NextDist(hole, j, e, n);
    assert !OnPath(h, n, s[j].key, hole, j);
    hide Stays, Next, OnPath, Dist;
    forall i | 0 <= i < n ensures i == j || (Dist(hole, i, n) >= Dist(hole, j, n) ==> Dist(hole, i, n) >= Dist(hole,
        next, n)) {
      SameDist(hole, i, j, n);
    }
    forall x | 0 <= x < n && Dist(hole, x, n) < Dist(hole, next, n) ensures s[x].key != EMPTY {
      SameDist(hole, x, j, n);
    }
    SameDist(hole, hole, next, n);
  }

  lemma NextDist(a: nat, j: nat, e: nat, n: nat)
    requires a < n && j < n && e < n && Dist(a, j, n) < Dist(a, e, n)
    ensures Dist(a, Next(j, n), n) == Dist(a, j, n) + 1
  {
  }

  lemma SameDist(a: nat, x: nat, y: nat, n: nat)
    requires a < n && x < n && y < n
    ensures Dist(a, x, n) == Dist(a, y, n) <==> x == y
  {
  }

  lemma ShiftMoves<V>(s: seq<Slot<V>>, m: map<u64, V>, h: Home, hole: nat, j: nat, e: nat)
    requires hole < |s| && j < |s| && e < |s| && Shifting(s, m, h, hole, j)
    requires s[j].key != EMPTY && s[e].key == EMPTY && e != hole && Dist(hole, j, |s|) <= Dist(hole, e, |s|)
    requires !Stays(hole, h(s[j].key), j)
    ensures var t := s[hole := s[j]];
      && Shifting(t, m, h, j, Next(j, |s|))
      && t[e].key == EMPTY && e != j
      && Dist(j, Next(j, |s|), |s|) <= Dist(j, e, |s|)
      && Dist(Next(j, |s|), e, |s|) < Dist(j, e, |s|)
  {
    var t, n := s[hole := s[j]], |s|;
    hide Holds, Paths;
    MovedHolds(s, m, hole, j);
    MovedPaths(s, h, hole, j);
    SameDist(hole, j, e, n);
    NextDist(j, j, e, n);
    SameDist(j, j, Next(j, n), n);
  }

  lemma MovedPaths<V>(s: seq<Slot<V>>, h: Home, hole: nat, j: nat)
    requires HomesIn(h, |s|) && hole < |s| && j < |s| && hole != j && |s| > 1
    requires s[j].key != EMPTY && Paths(s, h, hole, j) && !Stays(hole, h(s[j].key), j)
    ensures Paths(s[hole := s[j]], h, j, Next(j, |s|))
  {
    var t, n := s[hole := s[j]], |s|;
    assert OnPath(h, n, s[j].key, hole, j);
    forall i | 0 <= i < n && i != j ensures Dist(j, i, n) >= Dist(j, Next(j, n), n) {
    }
    forall i, x | 0 <= i < n && i != j && t[i].key != EMPTY && 0 <= x < n && OnPath(h, n, t[i].key, x, i)
      ensures t[x].key != EMPTY
    {
      assert OnPath(h, n, t[i].key, x, if i == hole then j else i);
    }
  }

  lemma MovedHolds<V>(s: seq<Slot<V>>, m: map<u64, V>, hole: nat, j: nat)
    requires hole < |s| && j < |s| && hole != j && Holds(s, m, hole) && s[j].key != EMPTY
    ensures Holds(s[hole := s[j]], m, j)
  {
    var t := s[hole := s[j]];
    forall k | k in m ensures exists i :: 0 <= i < |t| && i != j && t[i].key == k {
      var i :| 0 <= i < |s| && i != hole && s[i].key == k;
      assert t[if i == j then hole else i].key == k;
    }
  }

  /** At the end of the cluster the hole can be emptied. */
  lemma ShiftEnds<V>(s: seq<Slot<V>>, m: map<u64, V>, h: Home, hole: nat, j: nat)
    requires hole < |s| && j < |s| && Shifting(s, m, h, hole, j)
    requires s[j].key == EMPTY
    ensures Table(s[hole := s[hole].(key := EMPTY)], m, h)
  {
    var t, n := s[hole := s[hole].(key := EMPTY)], |s|;
    assert Holds(t, m, -1) by {
      forall k | k in m ensures exists i :: 0 <= i < n && t[i].key == k {
        var i :| 0 <= i < n && i != hole && s[i].key == k;
        assert t[i].key == k;
      }
    }
    PathsEnd(s, h, hole, j);
  }

  lemma PathsEnd<V>(s: seq<Slot<V>>, h: Home, hole: nat, j: nat)
    requires HomesIn(h, |s|) && hole < |s| && j < |s| && hole != j
    requires s[j].key == EMPTY && Paths(s, h, hole, j)
    ensures Reachable(s[hole := s[hole].(key := EMPTY)], h)
  {
    var t, n := s[hole := s[hole].(key := EMPTY)], |s|;
    forall i, x | 0 <= i < n && t[i].key != EMPTY && 0 <= x < n && OnPath(h, n, t[i].key, x, i)
      ensures t[x].key != EMPTY
    {
      assert OnPath(h, n, s[i].key, j, i) || i == j || x != hole;
    }
  }
}
