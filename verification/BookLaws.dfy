/** Laws of the order events on the flat lists, over every run. */
module BookLaws {
  import opened BigEndian
  import opened BookReference

  predicate WellPlaced(lists: Lists, e: Event) {
    e.Add? ==> e.locate < |lists|
  }

  ghost function Run(lists: Lists, es: seq<Event>): (r: Lists)
    requires forall i | 0 <= i < |es| :: WellPlaced(lists, es[i])
    ensures |r| == |lists|
  {
    if es == [] then lists
    else
      assert WellPlaced(lists, es[|es| - 1]);
      Apply(Run(lists, es[..|es| - 1]), es[|es| - 1])
  }

  // ---- References stay unique ----

  lemma DropPlaces(lists: Lists, l: nat, k: nat, ref: u64, m: nat, j: nat)
    requires l < |lists| && k < |lists[l]|
    ensures LiveAt(Drop(lists, l, k), ref, m, j) ==> LiveAt(lists, ref, m, if m == l && j >= k then j + 1 else j)
    ensures LiveAt(lists, ref, m, j) && !(m == l && j == k) ==>
              LiveAt(Drop(lists, l, k), ref, m, if m == l && j > k then j - 1 else j)
  {
  }

  lemma DropUnique(lists: Lists, l: nat, k: nat)
    requires Unique(lists) && l < |lists| && k < |lists[l]|
    ensures Unique(Drop(lists, l, k))
    ensures forall r :: IsLive(Drop(lists, l, k), r) <==> IsLive(lists, r) && r != lists[l][k].ref
  {
    hide Drop;
    var now := Drop(lists, l, k);
    forall r, m, j, m', j' | LiveAt(now, r, m, j) && LiveAt(now, r, m', j') ensures m == m' && j == j' {
      DropPlaces(lists, l, k, r, m, j);
      DropPlaces(lists, l, k, r, m', j');
    }
    assert LiveAt(lists, lists[l][k].ref, l, k);
    forall r ensures IsLive(now, r) <==> IsLive(lists, r) && r != lists[l][k].ref {
      if m, j :| LiveAt(now, r, m, j) {
        DropPlaces(lists, l, k, r, m, j);
      }
      if IsLive(lists, r) && r != lists[l][k].ref {
        var m: nat, j: nat :| LiveAt(lists, r, m, j);
        DropPlaces(lists, l, k, r, m, j);
      }
    }
  }

  lemma AppendUnique(lists: Lists, l: nat, e: Entry)
    requires Unique(lists) && l < |lists|
    ensures Unique(Append(lists, l, e))
  {
    var now := Append(lists, l, e);
    forall r, m, j, m', j' | LiveAt(now, r, m, j) && LiveAt(now, r, m', j') ensures m == m' && j == j' {
      assert LiveAt(lists, r, m, j) || (m == l && j == |lists[l]| && now != lists);
      assert LiveAt(lists, r, m', j') || (m' == l && j' == |lists[l]| && now != lists);
    }
  }

  /** Changing an entry without touching its reference. */
  lemma SharesUnique(lists: Lists, l: nat, k: nat, e: Entry)
    requires Unique(lists) && l < |lists| && k < |lists[l]| && e.ref == lists[l][k].ref
    ensures Unique(lists[l := lists[l][k := e]])
  {
    var now := lists[l := lists[l][k := e]];
    forall r, m: nat, j: nat ensures LiveAt(now, r, m, j) <==> LiveAt(lists, r, m, j) {
    }
  }

  lemma ApplyUnique(lists: Lists, e: Event)
    requires Unique(lists) && WellPlaced(lists, e)
    ensures Unique(Apply(lists, e))
  {
    hide Unique, Drop, Append;
    match e
    case Add(locate, entry) => AppendUnique(lists, locate, entry);
    case Take(ref, shares) =>
      if IsLive(lists, ref) {
        var (l, k) := Place(lists, ref);
        DropUnique(lists, l, k);
        if shares < lists[l][k].shares {
          SharesUnique(lists, l, k, lists[l][k].(shares := lists[l][k].shares - shares));
        }
      }
    case Delete(ref) =>
      if IsLive(lists, ref) {
        var (l, k) := Place(lists, ref);
        DropUnique(lists, l, k);
      }
    case Replace(oldRef, newRef, shares, price) =>
      if IsLive(lists, oldRef) {
        var (l, k) := Place(lists, oldRef);
        DropUnique(lists, l, k);
        AppendUnique(Drop(lists, l, k), l, Entry(newRef, lists[l][k].side, price, shares));
      }
  }

  /** No run of events makes a reference live twice, not even one that reuses or replaces onto live references. */
  lemma {:induction false} RunUnique(lists: Lists, es: seq<Event>)
    requires Unique(lists) && forall i | 0 <= i < |es| :: WellPlaced(lists, es[i])
    ensures Unique(Run(lists, es))
  {
    hide Unique, Apply;
    if es != [] {
      RunUnique(lists, es[..|es| - 1]);
      ApplyUnique(Run(lists, es[..|es| - 1]), es[|es| - 1]);
    }
  }

  // ---- What a replacement is ----

  /** The old reference is gone; the new one, if usable, is last in the same instrument's list, on the same side. */
  lemma ReplaceGoesToTheBack(lists: Lists, oldRef: u64, newRef: u64, shares: u32, price: u32)
    requires Unique(lists) && IsLive(lists, oldRef)
    ensures var now, (l, k) := Apply(lists, Replace(oldRef, newRef, shares, price)), Place(lists, oldRef);
      var usable := newRef != NO_REF && (newRef == oldRef || !IsLive(lists, newRef));
      var rest := lists[l][..k] + lists[l][k + 1..];
      && now == lists[l := if usable then rest + [Entry(newRef, lists[l][k].side, price, shares)] else rest]
      && (IsLive(now, oldRef) <==> usable && newRef == oldRef)
  {
    var (l, k) := Place(lists, oldRef);
    var dropped := Drop(lists, l, k);
    var e := Entry(newRef, lists[l][k].side, price, shares);
    DropUnique(lists, l, k);
    var now := Append(dropped, l, e);
    if newRef != NO_REF && !IsLive(dropped, newRef) {
      AppendLive(dropped, l, e, oldRef);
    }
  }

  lemma AppendLive(lists: Lists, l: nat, e: Entry, ref: u64)
    requires l < |lists| && e.ref != NO_REF && !IsLive(lists, e.ref)
    ensures IsLive(Append(lists, l, e), ref) <==> IsLive(lists, ref) || ref == e.ref
  {
    var now := Append(lists, l, e);
    assert LiveAt(now, e.ref, l, |lists[l]|);
    if m, j :| LiveAt(lists, ref, m, j) {
      assert LiveAt(now, ref, m, j);
    }
    if m, j :| LiveAt(now, ref, m, j) && ref != e.ref {
      assert LiveAt(lists, ref, m, j);
    }
  }

  // ---- Executions add up ----

  /** Two executions of an order are one execution of the sum, over-executions included. */
  lemma TakesAddUp(lists: Lists, ref: u64, a: u32, b: u32)
    requires Unique(lists) && a as int + b < 0x1_0000_0000
    ensures Apply(Apply(lists, Take(ref, a)), Take(ref, b)) == Apply(lists, Take(ref, a + b))
  {
    if IsLive(lists, ref) {
      hide Unique, Drop;
      var (l, k) := Place(lists, ref);
      var e := lists[l][k];
      if a >= e.shares {
        DropUnique(lists, l, k);
      } else {
        var less := e.(shares := e.shares - a);
        var now := lists[l := lists[l][k := less]];
        SharesUnique(lists, l, k, less);
        assert LiveAt(now, ref, l, k);
        PlaceIsUnique(now, ref, l, k);
        if b < less.shares {
          assert now[l][k := less.(shares := less.shares - b)] == lists[l][k := e.(shares := e.shares - a - b)];
        }
        SameDrop(lists, l, k, less);
      }
    }
  }

  lemma SameDrop(lists: Lists, l: nat, k: nat, e: Entry)
    requires l < |lists| && k < |lists[l]|
    ensures Drop(lists[l := lists[l][k := e]], l, k) == Drop(lists, l, k)
  {
    assert lists[l][k := e][..k] == lists[l][..k] && lists[l][k := e][k + 1..] == lists[l][k + 1..];
  }
}
