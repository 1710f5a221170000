/** What adding, reducing and removing an order do to one side of a book. */
module BookSteps {
  import opened BigEndian
  import opened ObjectPools
  import opened BookLevels

  // ---- One level ----

  lemma {:induction false} SharesFrame(mem: Memory, now: Memory, q: seq<nat>)
    requires AllIn(mem, q) && AllIn(now, q)
    requires forall k | 0 <= k < |q| :: now[q[k]].shares == mem[q[k]].shares
    ensures Shares(now, q) == Shares(mem, q)
  {
    if q != [] {
      SharesFrame(mem, now, q[..|q| - 1]);
    }
  }

  lemma SharesAppend(mem: Memory, q: seq<nat>, p: nat)
    requires AllIn(mem, q) && p in mem
    ensures AllIn(mem, q + [p]) && Shares(mem, q + [p]) == Shares(mem, q) + mem[p].shares
  {
    assert (q + [p])[..|q|] == q;
  }

  lemma {:induction false} SharesWithout(mem: Memory, q: seq<nat>, p: nat)
    requires AllIn(mem, q) && Distinct(q) && p in q
    ensures AllIn(mem, Without(q, p)) && Shares(mem, q) == Shares(mem, Without(q, p)) + mem[p].shares
  {
    var before, last := q[..|q| - 1], q[|q| - 1];
    if last != p {
      SharesWithout(mem, before, p);
      SharesAppend(mem, Without(before, p), last);
    }
  }

  /** The memory after `p` is linked behind the level's tail. */
  function Appended(mem: Memory, level: PriceLevel, p: nat): Memory
    requires p in mem && (level.tail == NULL || level.tail in mem)
  {
    var m := mem[p := mem[p].(prev := level.tail, next := NULL)];
    if level.tail == NULL then m else m[level.tail as nat := m[level.tail].(next := p)]
  }

  function Pushed(level: PriceLevel, p: nat, shares: u32): PriceLevel {
    level.(head := if level.tail == NULL then p else level.head, tail := p,
           orderCount := level.orderCount + 1, shares := level.shares + shares)
  }

  /** Appended, cell by cell. */
  function AfterAppend(mem: Memory, tail: int, p: nat, x: nat): BookOrder
    requires x in mem
  {
    if x == p then mem[x].(prev := tail, next := NULL)
    else if x == tail then mem[x].(next := p)
    else mem[x]
  }

  lemma AppendedIs(mem: Memory, level: PriceLevel, p: nat)
    requires p in mem && (level.tail == NULL || level.tail in mem) && level.tail != p
    ensures Appended(mem, level, p).Keys == mem.Keys
    ensures forall x | x in mem :: Appended(mem, level, p)[x] == AfterAppend(mem, level.tail, p, x)
  {
  }

  lemma LevelAppend(mem: Memory, level: PriceLevel, q: seq<nat>, p: nat)
    requires LevelOk(mem, level, q) && p in mem && p !in q
    ensures (level.tail == NULL || level.tail in q) && level.tail != p
    ensures LevelOk(Appended(mem, level, p), Pushed(level, p, mem[p].shares), q + [p])
  {
    hide Shares, Linked, Appended;
    var r := q + [p];
    assert q != [] ==> q[|q| - 1] == level.tail;
    AppendedIs(mem, level, p);
    var now := Appended(mem, level, p);
    assert forall k | 0 <= k < |q| :: q[k] in mem && now[q[k]].shares == mem[q[k]].shares;
    SharesFrame(mem, now, q);
    SharesAppend(now, q, p);
    AppendedLinks(mem, now, level.tail, q, p);
  }

  lemma AppendedLinks(mem: Memory, now: Memory, tail: int, q: seq<nat>, p: nat)
    requires AllIn(mem, q) && Distinct(q) && Linked(mem, q) && p in mem && p !in q && tail == Last(q)
    requires AllIn(now, q + [p])
    requires forall x | x in q + [p] :: now[x] == AfterAppend(mem, tail, p, x)
    ensures Linked(now, q + [p])
  {
    hide Linked;
    var r := q + [p];
    forall k | 0 <= k < |r|
      ensures now[r[k]].prev == if k == 0 then NULL else r[k - 1]
      ensures now[r[k]].next == if k == |r| - 1 then NULL else r[k + 1]
    {
      assert r[k] in r;
      if k < |q| {
        Neighbours(mem, q, k);
        if k < |q| - 1 {
          Differ(q, k, |q| - 1);
        }
      }
    }
    LinkedIf(now, r);
  }

  /** The memory after `p` is taken out of its queue. */
  function Unlinked(mem: Memory, p: nat): Memory
    requires p in mem && (mem[p].prev == NULL || mem[p].prev in mem) && (mem[p].next == NULL || mem[p].next in mem)
  {
    var o := mem[p];
    var m1 := if o.prev == NULL then mem else mem[o.prev as nat := mem[o.prev].(next := o.next)];
    var m2 := if o.next == NULL then m1 else m1[o.next as nat := m1[o.next].(prev := o.prev)];
    m2[p := m2[p].(prev := NULL, next := NULL)]
  }

  function Pulled(level: PriceLevel, o: BookOrder): PriceLevel
    requires level.orderCount > 0 && level.shares >= o.shares
  {
    level.(head := if o.prev == NULL then o.next else level.head, tail := if o.next == NULL then o.prev else level.tail,
           orderCount := level.orderCount - 1, shares := level.shares - o.shares)
  }

  /** Unlinked, cell by cell. */
  function AfterUnlink(mem: Memory, p: nat, x: nat): BookOrder
    requires p in mem && x in mem
  {
    if x == p then mem[x].(prev := NULL, next := NULL)
    else mem[x].(next := if x == mem[p].prev then mem[p].next else mem[x].next,
                 prev := if x == mem[p].next then mem[p].prev else mem[x].prev)
  }

  lemma UnlinkedIs(mem: Memory, p: nat)
    requires p in mem && (mem[p].prev == NULL || mem[p].prev in mem) && (mem[p].next == NULL || mem[p].next in mem)
    requires mem[p].prev != p && mem[p].next != p
    ensures Unlinked(mem, p).Keys == mem.Keys
    ensures forall x | x in mem :: Unlinked(mem, p)[x] == AfterUnlink(mem, p, x)
  {
  }

  /** Where the neighbours of the k-th order are. */
  lemma Neighbours(mem: Memory, q: seq<nat>, k: nat)
    requires AllIn(mem, q) && Distinct(q) && Linked(mem, q) && k < |q|
    ensures var o := mem[q[k]];
      && o.prev == (if k == 0 then NULL else q[k - 1]) && o.next == (if k == |q| - 1 then NULL else q[k + 1])
      && (o.prev == NULL || o.prev in q) && (o.next == NULL || o.next in q)
      && o.prev != q[k] && o.next != q[k]
    ensures forall i | 0 <= i < |q| :: q[i] in mem
  {
  }

  lemma LevelUnlink(mem: Memory, level: PriceLevel, q: seq<nat>, p: nat)
    requires LevelOk(mem, level, q) && p in q
    ensures (mem[p].prev == NULL || mem[p].prev in q) && (mem[p].next == NULL || mem[p].next in q)
    ensures mem[p].prev != p && mem[p].next != p
    ensures level.orderCount > 0 && level.shares >= mem[p].shares
    ensures LevelOk(Unlinked(mem, p), Pulled(level, mem[p]), Without(q, p))
  {
    hide Shares, Linked, Unlinked, Without, Distinct, AfterUnlink;
    var k: nat :| k < |q| && q[k] == p;
    Neighbours(mem, q, k);
    WithoutAt(q, p, k);
    UnlinkedIs(mem, p);
    UnlinkedShares(mem, Unlinked(mem, p), q, p);
    UnlinkedLinks(mem, Unlinked(mem, p), q, p, k);
    EndsWithout(q, k);
  }

  lemma UnlinkedShares(mem: Memory, now: Memory, q: seq<nat>, p: nat)
    requires AllIn(mem, q) && Distinct(q) && p in q
    requires forall x | x in q :: x in now && now[x] == AfterUnlink(mem, p, x)
    ensures var r := Without(q, p);
      AllIn(now, r) && Shares(mem, q) == Shares(now, r) + mem[p].shares && |r| == |q| - 1
  {
    hide Shares, Without;
    SharesWithout(mem, q, p);
    var r := Without(q, p);
    forall j | 0 <= j < |r| ensures r[j] in q && r[j] != p {
      WithoutIn(q, p, r[j]);
    }
    WithoutIn(q, p, p);
    SharesFrame(mem, now, r);
  }

  lemma EndsWithout(q: seq<nat>, k: nat)
    requires k < |q|
    ensures var r := q[..k] + q[k + 1..];
      && First(r) == (if k > 0 then q[0] else if |q| > 1 then q[1] else NULL)
      && Last(r) == (if k < |q| - 1 then q[|q| - 1] else if |q| > 1 then q[k - 1] else NULL)
  {
  }

  lemma UnlinkedLinks(mem: Memory, now: Memory, q: seq<nat>, p: nat, k: nat)
    requires AllIn(mem, q) && Distinct(q) && Linked(mem, q) && k < |q| && q[k] == p
    requires forall x | x in q :: x in now && now[x] == AfterUnlink(mem, p, x)
    ensures var r := q[..k] + q[k + 1..]; AllIn(now, r) && Distinct(r) && Linked(now, r)
  {
    hide Linked, AfterUnlink;
    var r := q[..k] + q[k + 1..];
    forall j | 0 <= j < |r|
      ensures r[j] in now
      ensures now[r[j]].prev == if j == 0 then NULL else r[j - 1]
      ensures now[r[j]].next == if j == |r| - 1 then NULL else r[j + 1]
    {
      var i := if j < k then j else j + 1;
      assert r[j] == q[i];
      UnlinkedCell(mem, q, k, i);
    }
    LinkedIf(now, r);
  }

  /** The other orders of the queue skip the k-th. */
  lemma UnlinkedCell(mem: Memory, q: seq<nat>, k: nat, i: nat)
    requires AllIn(mem, q) && Distinct(q) && Linked(mem, q) && k < |q| && i < |q| && i != k
    ensures var o := AfterUnlink(mem, q[k], q[i]);
      var before, after := if i == k + 1 then k - 1 else i - 1, if i == k - 1 then k + 1 else i + 1;
      && o.prev == (if before < 0 then NULL else q[before])
      && o.next == (if after >= |q| then NULL else q[after])
  {
    hide Linked, Distinct, AllIn;
    Neighbours(mem, q, k);
    Neighbours(mem, q, i);
    Differ(q, i, k);
    if k > 0 && i != k - 1 {
      Differ(q, i, k - 1);
    }
    if k < |q| - 1 && i != k + 1 {
      Differ(q, i, k + 1);
    }
  }

  lemma Differ(q: seq<nat>, i: nat, j: nat)
    requires Distinct(q) && i < |q| && j < |q| && i != j
    ensures q[i] != q[j]
  {
  }

  lemma LinkedIf(mem: Memory, q: seq<nat>)
    requires AllIn(mem, q)
    requires forall k | 0 <= k < |q| :: mem[q[k]].prev == if k == 0 then NULL else q[k - 1]
    requires forall k | 0 <= k < |q| :: mem[q[k]].next == if k == |q| - 1 then NULL else q[k + 1]
    ensures Linked(mem, q)
  {
  }

  lemma LevelReduce(mem: Memory, level: PriceLevel, q: seq<nat>, p: nat, shares: u32)
    requires LevelOk(mem, level, q) && p in q && shares <= mem[p].shares
    ensures level.shares >= shares
    ensures LevelOk(mem[p := mem[p].(shares := mem[p].shares - shares)], level.(shares := level.shares - shares), q)
  {
    hide Shares, Without, Linked;
    var now, r := mem[p := mem[p].(shares := mem[p].shares - shares)], Without(q, p);
    SharesWithout(mem, q, p);
    SharesWithout(now, q, p);
    forall j | 0 <= j < |r| ensures r[j] in mem && now[r[j]].shares == mem[r[j]].shares {
      WithoutIn(q, p, r[j]);
    }
    SharesFrame(mem, now, r);
    ReducedLinks(mem, now, q);
  }

  lemma ReducedLinks(mem: Memory, now: Memory, q: seq<nat>)
    requires AllIn(mem, q) && AllIn(now, q) && Linked(mem, q)
    requires forall k | 0 <= k < |q| :: now[q[k]].prev == mem[q[k]].prev && now[q[k]].next == mem[q[k]].next
    ensures Linked(now, q)
  {
  }

  lemma LevelFrame(mem: Memory, now: Memory, level: PriceLevel, q: seq<nat>)
    requires LevelOk(mem, level, q) && forall k | 0 <= k < |q| :: q[k] in now && now[q[k]] == mem[q[k]]
    ensures LevelOk(now, level, q)
  {
    SharesFrame(mem, now, q);
  }
}
