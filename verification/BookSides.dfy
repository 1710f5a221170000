/** Whole sides of a book: finding and creating levels, and what each event does to every level. */
module BookSides {
  import opened BigEndian
  import opened ObjectPools
  import opened BookLevels
  import opened BookSteps

  /** std::lower_bound in the side's own order: the first level that is not worse than `price`. */
  function LowerBound(levels: seq<PriceLevel>, side: BookSide, price: u32): (i: nat)
    ensures i <= |levels|
    ensures forall j | 0 <= j < i :: Better(side, price, levels[j].price)
    ensures i < |levels| ==> !Better(side, price, levels[i].price)
  {
    if levels == [] || !Better(side, price, levels[0].price) then 0 else 1 + LowerBound(levels[1..], side, price)
  }

  function EmptyLevel(price: u32): PriceLevel { PriceLevel(price, 0, 0, NULL, NULL) }

  function Inserted(levels: seq<PriceLevel>, i: nat, level: PriceLevel): seq<PriceLevel>
    requires i <= |levels|
  {
    levels[..i] + [level] + levels[i..]
  }

  function Erased(levels: seq<PriceLevel>, i: nat): seq<PriceLevel>
    requires i < |levels|
  {
    levels[..i] + levels[i + 1..]
  }

  /** A level's price is found where the search says it is. */
  lemma FoundAt(levels: seq<PriceLevel>, side: BookSide, price: u32)
    requires Sorted(side, levels) && HasLevel(levels, price)
    ensures var i := LowerBound(levels, side, price); i < |levels| && levels[i].price == price
  {
    var i := LowerBound(levels, side, price);
    var k :| 0 <= k < |levels| && levels[k].price == price;
    assert i <= k && !Better(side, price, levels[i].price);
  }

  lemma NoOneThere(mem: Memory, orders: seq<nat>, side: BookSide, levels: seq<PriceLevel>, price: u32)
    requires AllIn(mem, orders) && SideOk(mem, orders, side, levels) && !HasLevel(levels, price)
    ensures Queue(mem, orders, side, price) == []
  {
    var q := Queue(mem, orders, side, price);
    if q != [] {
      QueueIn(mem, orders, side, price, q[0]);
    }
  }

  lemma InsertSide(mem: Memory, orders: seq<nat>, side: BookSide, levels: seq<PriceLevel>, price: u32)
    requires AllIn(mem, orders) && SideOk(mem, orders, side, levels)
    requires var i := LowerBound(levels, side, price); i == |levels| || levels[i].price != price
    ensures SideOk(mem, orders, side, Inserted(levels, LowerBound(levels, side, price), EmptyLevel(price)))
  {
    hide LevelOk, Queue;
    var i := LowerBound(levels, side, price);
    var now := Inserted(levels, i, EmptyLevel(price));
    if HasLevel(levels, price) {
      FoundAt(levels, side, price);
    }
    NoOneThere(mem, orders, side, levels, price);
    NothingQueued(mem, price);
    InsertSorted(levels, side, price);
    forall j | 0 <= j < |now| ensures LevelOk(mem, now[j], Queue(mem, orders, side, now[j].price)) {
      assert now[j] == if j < i then levels[j] else if j == i then EmptyLevel(price) else levels[j - 1];
    }
    forall k | 0 <= k < |orders| && mem[orders[k]].side == side ensures HasLevel(now, mem[orders[k]].price) {
      var j :| 0 <= j < |levels| && levels[j].price == mem[orders[k]].price;
      assert now[if j < i then j else j + 1] == levels[j];
    }
  }

  lemma NothingQueued(mem: Memory, price: u32)
    ensures LevelOk(mem, EmptyLevel(price), [])
  {
  }

  lemma NoneQueued(mem: Memory, level: PriceLevel, q: seq<nat>)
    requires LevelOk(mem, level, q)
    ensures q == [] <==> level.orderCount == 0
  {
  }

  lemma InsertSorted(levels: seq<PriceLevel>, side: BookSide, price: u32)
    requires Sorted(side, levels) && !HasLevel(levels, price)
    ensures Sorted(side, Inserted(levels, LowerBound(levels, side, price), EmptyLevel(price)))
  {
    var i := LowerBound(levels, side, price);
    forall j | i <= j < |levels| ensures Better(side, levels[j].price, price) {
      assert levels[j].price != price;
      assert i < j ==> Better(side, levels[j].price, levels[i].price);
    }
  }

  lemma EraseSide(mem: Memory, orders: seq<nat>, side: BookSide, levels: seq<PriceLevel>, i: nat)
    requires AllIn(mem, orders) && SideOk(mem, orders, side, levels)
    requires i < |levels| && levels[i].orderCount == 0
    ensures SideOk(mem, orders, side, Erased(levels, i))
  {
    hide LevelOk, Queue;
    var now := Erased(levels, i);
    NoneQueued(mem, levels[i], Queue(mem, orders, side, levels[i].price));
    assert forall j | 0 <= j < |now| :: now[j] == levels[if j < i then j else j + 1];
    forall k | 0 <= k < |orders| && mem[orders[k]].side == side ensures HasLevel(now, mem[orders[k]].price) {
      QueueIn(mem, orders, side, levels[i].price, orders[k]);
      var j :| 0 <= j < |levels| && levels[j].price == mem[orders[k]].price;
      assert now[if j < i then j else j - 1] == levels[j];
    }
  }

  // ---- The three changes ----

  /** Everything on other levels, and on the other side, is untouched by a change at one price. */
  ghost predicate OnlyAt(mem: Memory, now: Memory, orders: seq<nat>, side: BookSide, price: u32) {
    && SamePlaces(mem, now, orders)
    && forall k | 0 <= k < |orders| && !(mem[orders[k]].side == side && mem[orders[k]].price == price) ::
         now[orders[k]] == mem[orders[k]]
  }

  /** A level whose queue is the same before and after, cell for cell. */
  lemma OtherLevel(mem: Memory, now: Memory, orders: seq<nat>, side: BookSide, price: u32, level: PriceLevel,
      at: BookSide)
    requires OnlyAt(mem, now, orders, side, price)
    requires level.price != price || at != side
    requires LevelOk(mem, level, Queue(mem, orders, at, level.price))
    ensures LevelOk(now, level, Queue(mem, orders, at, level.price))
  {
    hide LevelOk, Queue;
    var q := Queue(mem, orders, at, level.price);
    QueueIn(mem, orders, at, level.price, 0);
    forall k | 0 <= k < |q| ensures q[k] in now && now[q[k]] == mem[q[k]] {
      QueueIn(mem, orders, at, level.price, q[k]);
    }
    LevelFrame(mem, now, level, q);
  }

  /** The change at one level, with the rest of its side untouched. */
  lemma ChangeSide(mem: Memory, now: Memory, orders: seq<nat>, after: seq<nat>, side: BookSide,
                   levels: seq<PriceLevel>, i: nat, level: PriceLevel)
    requires AllIn(mem, orders) && SideOk(mem, orders, side, levels) && i < |levels| && level.price == levels[i].price
    requires OnlyAt(mem, now, orders, side, level.price) && AllIn(now, after)
    requires LevelOk(now, level, Queue(now, after, side, level.price))
    requires forall price: u32 | price != level.price ::
        Queue(now, after, side, price) == Queue(mem, orders, side, price)
    requires forall k | 0 <= k < |after| && now[after[k]].side == side :: HasLevel(levels, now[after[k]].price)
    ensures SideOk(now, after, side, levels[i := level])
  {
    hide LevelOk, Queue;
    var t := levels[i := level];
    forall j | 0 <= j < |t| ensures LevelOk(now, t[j], Queue(now, after, side, t[j].price)) {
      if j != i {
        assert levels[j].price != level.price;
        OtherLevel(mem, now, orders, side, level.price, levels[j], side);
      }
    }
    forall k | 0 <= k < |after| && now[after[k]].side == side ensures HasLevel(t, now[after[k]].price) {
      var j :| 0 <= j < |levels| && levels[j].price == now[after[k]].price;
      assert t[j].price == levels[j].price;
    }
  }

  /** The other side of the book. */
  lemma OtherSide(mem: Memory, now: Memory, orders: seq<nat>, after: seq<nat>, side: BookSide, price: u32,
                  at: BookSide, levels: seq<PriceLevel>)
    requires AllIn(mem, orders) && SideOk(mem, orders, at, levels) && at != side
    requires OnlyAt(mem, now, orders, side, price) && AllIn(now, after)
    requires forall price: u32 :: Queue(now, after, at, price) == Queue(mem, orders, at, price)
    requires forall k | 0 <= k < |after| && now[after[k]].side == at :: after[k] in orders
    ensures SideOk(now, after, at, levels)
  {
    hide LevelOk, Queue;
    forall j | 0 <= j < |levels| ensures LevelOk(now, levels[j], Queue(now, after, at, levels[j].price)) {
      OtherLevel(mem, now, orders, side, price, levels[j], at);
    }
    forall k | 0 <= k < |after| && now[after[k]].side == at ensures HasLevel(levels, now[after[k]].price) {
      var j :| 0 <= j < |orders| && orders[j] == after[k];
    }
  }
}
