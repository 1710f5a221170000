/** Plain memory that one thread writes and another reads: every write is kept, and a read may return an old one. */
module SlotMemory {
  /** The `index`-th message's value, written to a slot. */
  datatype Write<T> = Write(index: nat, value: T)

  /** The reader, who is ordered after the writes of the first `known` messages, may see the k-th write. */
  predicate Visible<T>(history: seq<Write<T>>, k: nat, known: nat) {
    k < |history| && forall j | k < j < |history| :: history[j].index >= known
  }

  /** The slot's latest write is message `j` with value `v`, and its earlier writes are not of later messages. */
  ghost predicate Holds<T>(history: seq<Write<T>>, j: nat, v: T) {
    && history != [] && history[|history| - 1] == Write(j, v)
    && forall k | 0 <= k < |history| :: history[k].index <= j
  }

  /** A reader ordered after the latest write sees that write and no other. */
  lemma LatestIsRead<T>(history: seq<Write<T>>, j: nat, v: T, k: nat, known: nat)
    requires Holds(history, j, v) && j < known && Visible(history, k, known)
    ensures history[k].value == v
  {
    assert history[|history| - 1].index < known;
  }
}
