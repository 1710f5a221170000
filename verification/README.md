# MiniHFT market-data path: a verified model

This project models the parts of MiniHFT that must not be wrong and proves what they are for:

- **MoldUDP64 delivery** (`MoldCodec`, `MoldSequencer`, `MoldDelivery`, `MoldGuarantees`, `MoldCounts`, `MoldFeed`).
  The datagram codec, the sequencer that turns one or two lossy feeds into each message once and in order, and the
  sender's packetising loop, joined by a network that loses, duplicates and reorders at will. The sequencer is a class
  whose methods are proved equal to functions on its state; an invariant over every run of those functions gives the
  guarantees.
- **The ITCH order book** (`ProbeTable`, `OrderIndex`, `ObjectPool`, `BookLevels`, `BookSteps`, `BookSides`,
  `L3OrderBook`, `BookWorld`, `BookReference`, `BookLaws`, `BookMachine`, `BookTotals`, `BookCounts`, `BookRuns`,
  `ItchBook`, `BookReplay`). A linear-probing index with backward-shift deletion refines a map; a slot pool with a
  free list threaded through its own cells hands out orders; linked queues inside sorted level arrays refine an
  arrival-ordered list. One invariant over all of them makes every handler of the builder equal, statistics and
  notifications included, to a step of a machine on flat lists of live orders, and the laws of that machine hold over
  every run: every counter is the number of messages that its name says, each in the state that the messages before it
  left.
- **Lock-free hand-offs** (`SlotMemory`, `RingBuffer`, `KernelBypass`, `RingVariants`). In the first three, every
  atomic load or store and every access to shared data is a step of its own. A load of an index or a flag may return
  an old value, and a read of a slot or a descriptor may return any write that its reader has no ordering against, so
  the release/acquire argument is part of the proof. `RingVariants` compares the queue variants as sequential objects,
  call by call.
- **Framing, buckets and matching** (`ItchReader`, `LatencyHistogram`, `OrderBook`). The refilling reader equals a
  plain parse and returns exactly the messages that are safe to decode, histogram percentiles bound the exact order
  statistics, and greedy matching trades the largest quantity that any price could trade.

`BigEndian` and `Bits` hold the byte and power-of-two arithmetic, including 64-bit wrap-around, and `Basics` an optional value.
Run `dafny verify dfyconfig.toml` to check everything.

## Where the code differs from what is said about it

- **A packet can be lost by its own arrival.** When the held list is full, `onPacket` gives up the oldest gap before it
  holds the packet in hand (include/MoldUdp64.hpp:205-211), so numbers that this packet carries can be counted lost and its
  copies dropped as duplicates. `MoldGuarantees.OwnPacketLostIff` proves exactly when: the packet lies beyond a gap, the list is
  full, and nothing held starts at or below it. Packets accepted by earlier calls are never affected
  (`NoFalseLoss`).
- **`tryInsert` may change the table when it returns false.** The comment at include/OrderIndex.hpp:48-49 says "changing
  nothing"; the code first grows the table (line 52), whatever it then finds. `OrderIndexes.OrderIndex.TryInsert` proves exactly
  when: a false answer leaves the table alone if and only if the key is the reserved one or one more entry would not
  exceed half of the capacity. `RefusedInsertGrows` reaches a case where it does not: eight keys in sixteen slots, and one of
  them again. The keys and values never change.
- **`capacityFor` does not loop for every argument above 2^62.** docs/code_quality.md:122 says that it loops forever above
  2^62 entries. It ends exactly when twice the entries, modulo 2^64, is at most 2^63 (`OrderIndexes.CapacityForEndsIff`). One
  past 2^62 it never ends (`CapacityForNeverEnds`); 2^63 entries give an empty table of 16 slots (`WrappedRequest`).
- **An ended session can have a gap.** `ended()` is documented as "end of session, with nothing missing before it"
  (include/MoldUdp64.hpp:236). It says that this was so after some step (`MoldGuarantees.EndedIff`) and stays true when a later
  packet of the session opens a gap, which `EndedWithGap` shows. From an ended session without a gap, the next step opens one
  exactly when it is a packet numbered beyond the next one that carries no messages or can be held (`ReopenedIff`).

## Model

| member | source | states |
|---|---|---|
| `BigEndian.Put64Be64` | include/ItchMessages.hpp:22-32 | Reading then writing any eight bytes gives the same bytes back, so no two byte strings share a value |
| `BigEndian.Order64` | include/ItchMessages.hpp:22-32 | Of two times eight bytes, the lexicographically smaller ones are the smaller number |
| `BigEndian.PutBe64` | include/ItchMessages.hpp:32 | The write changes exactly its eight bytes of the buffer |
| `MoldCodec.Decode` | include/MoldUdp64.hpp:64-85 | The loop over the datagram answers as the recursive definition does, with the same first error |
| `MoldCodec.DecodeOfEncode` | include/MoldUdp64.hpp:64-142 | Any messages the writer can hold decode to the same session, numbers and messages |
| `MoldCodec.EncodeOfDecode` | include/MoldUdp64.hpp:64-142 | An accepted datagram is byte for byte what the writer writes for its decoded contents |
| `MoldCodec.AcceptedIffEncoded` | include/MoldUdp64.hpp:61-85 | A datagram is accepted if and only if some session, number and messages encode to it |
| `MoldCodec.RefusedBecause` | include/MoldUdp64.hpp:64-85 | Each error is returned exactly for what it names: a datagram below the header's length; numbers past 2^64 - 1; an area whose next block, before the count is reached, is cut off or empty; bytes left behind the last block |
| `MoldCodec.SplitOfBlocks` | include/MoldUdp64.hpp:87-96 | Cutting the framed messages up gives the messages and whatever bytes follow them |
| `MoldCodec.BlocksOfSplit` | include/MoldUdp64.hpp:75-82 | Whatever can be cut up is exactly the framing of the pieces, followed by the rest |
| `MoldCodec.BlocksAppend` | include/MoldUdp64.hpp:113-123 | Appending one framed message extends the framed list by that message |
| `MoldCodec.SessionName` | include/MoldUdp64.hpp:101-104 | Ten bytes: the name cut off or padded with spaces |
| `MoldCodec.PacketWriter.constructor` | include/MoldUdp64.hpp:101-104 | A writer with the padded session, at sequence 1, holding nothing |
| `MoldCodec.PacketWriter.Begin` | include/MoldUdp64.hpp:107-111 | An empty packet at the given number |
| `MoldCodec.PacketWriter.Add` | include/MoldUdp64.hpp:113-123 | True exactly when the message can be framed, counted and fitted; then it is appended, otherwise nothing is |
| `MoldCodec.PacketWriter.Finish` | include/MoldUdp64.hpp:127-128 | The datagram is the encoding of the session, number and every message added |
| `MoldCodec.PacketWriter.Control` | include/MoldUdp64.hpp:130-134 | The datagram is the encoding of no messages with the given number and count |
| `MoldSequencer.Sequencer.constructor` | include/MoldUdp64.hpp:184 | The initial state |
| `MoldSequencer.Sequencer.OnPacket` | include/MoldUdp64.hpp:187-215 | The new state, statistics and deliveries are those of `Arrive` |
| `MoldSequencer.Sequencer.GiveUpGap` | include/MoldUdp64.hpp:217-231 | The new state is that of `GiveUp` |
| `MoldSequencer.Sequencer.DeliverNew` | include/MoldUdp64.hpp:246-261 | Reading the blocks in place delivers the same messages as splitting them first |
| `MoldSequencer.Sequencer.HoldPacket` | include/MoldUdp64.hpp:263-273 | The packet is dropped as a duplicate or put at its place among the held ones |
| `MoldSequencer.Sequencer.DrainHeld` | include/MoldUdp64.hpp:275-282 | Held packets are delivered from the front until one lies beyond a gap |
| `MoldGuarantees.EndedIff` | include/MoldUdp64.hpp:233-236 | In every run the session has ended if and only if, after some step, its end had been announced and no gap was open |
| `MoldSequencer.Position` | include/MoldUdp64.hpp:266-267 | The first held packet not below the sequence number |
| `MoldDelivery.HoldSorted` | include/MoldUdp64.hpp:263-273 | Holding keeps the held list ascending in number, and strictly descending in count among equal numbers |
| `MoldDelivery.RedundantCore` | include/MoldUdp64.hpp:268-271 | A packet dropped as already held is covered, number for number, by the held copy |
| `MoldDelivery.DrainHeldBeyond` | include/MoldUdp64.hpp:275-282 | Draining keeps the order and leaves only packets beyond a gap |
| `MoldDelivery.DeliverCore` | include/MoldUdp64.hpp:246-261 | Delivering a packet at or below the next number keeps coverage and every count, with that packet no longer waiting |
| `MoldDelivery.GiveUpCore` | include/MoldUdp64.hpp:217-231 | Giving up keeps the invariant and takes at least one packet off a non-empty held list |
| `MoldDelivery.ArriveInv` | include/MoldUdp64.hpp:187-215 | An in-session packet keeps the invariant, with that packet added to the history |
| `MoldDelivery.StepInv` | include/MoldUdp64.hpp:187-231 | Every packet and every give-up keeps the invariant |
| `MoldDelivery.RunInv` | include/MoldUdp64.hpp:171-237 | Every run of packets and give-ups keeps the invariant |
| `MoldGuarantees.DeliveredOnceInOrder` | include/MoldUdp64.hpp:151-170 | In every reachable state: deliveries strictly ascend and carry the stream's messages; next = first + delivered + lost; messages received = delivered + duplicates + held; at most `maxHeld` are held; an announced end with no gap open has ended |
| `MoldGuarantees.LossIsExact` | include/MoldUdp64.hpp:222-228 | `lost` is the number of passed numbers that were never delivered |
| `MoldGuarantees.LostIffSkipped` | include/MoldUdp64.hpp:205-231 | A step loses exactly the numbers its give-up jumps over |
| `MoldGuarantees.NoFalseLoss` | include/MoldUdp64.hpp:205-231 | No step loses a number that a packet accepted by an earlier call carried |
| `MoldGuarantees.AcceptedIsNeverLost` | include/MoldUdp64.hpp:151-170 | Once carried by an accepted packet and not yet passed, a number is delivered by the time it is passed, whatever comes next |
| `MoldGuarantees.OwnPacketLostIff` | include/MoldUdp64.hpp:205-215 | A packet's own arrival loses one of its numbers if and only if it lies beyond a gap, the held list is full, and nothing held starts at or below it |
| `MoldGuarantees.OwnPacketLostExample` | include/MoldUdp64.hpp:205-215 | A concrete run in which packet 5 is lost by its own arrival |
| `MoldGuarantees.NextIsLeastMissing` | include/MoldUdp64.hpp:151-158 | With nothing lost, the next number is the least one no accepted packet carried, and everything below it was delivered in order |
| `MoldGuarantees.OrderIndependent` | include/MoldUdp64.hpp:151-158 | Two runs that received the same numbers in any order, with nothing lost, delivered the same list |
| `MoldGuarantees.GiveUpProgress` | include/MoldUdp64.hpp:217-231 | Giving up an open gap moves the next number up towards the known one |
| `MoldGuarantees.GiveUpsClose` | src/mold_recv.cpp:155 | More calls than there are held packets close every gap and empty the held list |
| `MoldGuarantees.CloseGaps` | src/mold_recv.cpp:155 | The receiver's last loop ends, within held + 1 calls, with no gap open and nothing held |
| `MoldGuarantees.ReopenedIff` | include/MoldUdp64.hpp:196-211 | After the end, with no gap open, a step opens one if and only if it is a packet of the session beyond the next number, and either carries no messages or can be held |
| `MoldGuarantees.EndedWithGap` | include/MoldUdp64.hpp:233-236 | A concrete run that has ended and has a gap open |
| `MoldGuarantees.NothingHeld` | include/MoldUdp64.hpp:233-234 | A held packet is itself evidence of an open gap |
| `MoldCounts.RunCounts` | include/MoldUdp64.hpp:187-231 | Over every run: packets, heartbeats and other sessions' packets are the arrivals of that kind, `held` the packets that still lie beyond a gap when their call returns, and `gaps` the steps that lose a number |
| `MoldFeed.Flush` | src/mold_send.cpp:103-109 | Sends what the writer holds as one packet at its number, or nothing if it is empty |
| `MoldFeed.AddOrFlush` | src/mold_send.cpp:119-126 | The message ends up in the packet being built, unless it fits no packet; a packet is sent only when it has no room for it, in bytes or in count |
| `MoldFeed.EndSession` | src/mold_send.cpp:131-132 | Three end-of-session packets follow, each with the next number |
| `MoldFeed.Send` | src/mold_send.cpp:66-132 | Refuses a bad size; otherwise the datagrams are the messages in consecutive numbered packets, then the end three times, or exactly the messages before the first one that fits no packet. No packet is longer than asked for, and every data packet but the last had no room for the message after it |
| `MoldFeed.OneRound` | src/mold_recv.cpp:118-147 | Every datagram the sockets had is decoded and handed on or counted under its error; then an open gap is given up if and only if the round was empty and the wait has run out |
| `MoldFeed.Receiver` | src/mold_recv.cpp:118-154 | For any rounds, the sequencer is in the state of the run of the accepted packets and give-ups, every refusal is counted by its error, a gap is given up exactly after the empty rounds whose wait had run out, and reading stops as soon as the session has ended |
| `MoldFeed.SeenIsOffered` | src/mold_recv.cpp:118-147 | What the sequencer is shown is every datagram the sockets had, in order, and no other |
| `MoldFeed.SentIsGenuine` | src/mold_send.cpp:103-132 | The receiver accepts every datagram sent and reads the right messages under the right numbers |
| `MoldFeed.GenuineRun` | include/MoldUdp64.hpp:187-201 | When all of the session's packets are the sender's, no number is announced beyond what was sent, whatever other sessions send |
| `MoldFeed.EndToEnd` | src/mold_send.cpp:103-132 | For every loss, duplication and reordering of the datagrams, other sessions' packets in between and any give-ups: deliveries strictly ascend, each is the sender's message of that number, and once the end has arrived with no gap open delivered + lost = sent; with nothing lost, the delivered list is the sent list |
| `MoldFeed.MoldRecv` | src/mold_recv.cpp:118-155 | The receiver's loop and its last loop together: no gap is left open and nothing held, and once the end has arrived, with or without gaps before it, delivered + lost = sent |
| `ProbeTable.ProbeMiss` | include/OrderIndex.hpp:39-46 | An empty slot at the end of a probe means the key is absent |
| `ProbeTable.EmptySlot` | include/OrderIndex.hpp:52 | A table with more slots than entries has an empty one, so every probe ends |
| `ProbeTable.InsertKeeps` | include/OrderIndex.hpp:53-61 | Writing an absent key where its probe ended keeps every key reachable |
| `ProbeTable.ShiftPasses` | include/OrderIndex.hpp:72-82 | An entry that stays keeps the shifting invariant for the next slot, across the array end too |
| `ProbeTable.ShiftMoves` | include/OrderIndex.hpp:72-82 | An entry moved into the hole leaves a later hole with the same invariant |
| `ProbeTable.ShiftEnds` | include/OrderIndex.hpp:83 | At the end of the cluster, emptying the hole gives a table again with every key reachable |
| `OrderIndexes.HomesFit` | include/OrderIndex.hpp:100-101 | The multiplied and shifted 64-bit hash is always a slot of the table |
| `OrderIndexes.AndMaskNext` | include/OrderIndex.hpp:41 | The masked increment is the next slot around the ring |
| `OrderIndexes.OrderIndex.constructor` | include/OrderIndex.hpp:21 | An empty map |
| `OrderIndexes.OrderIndex.Probe` | include/OrderIndex.hpp:41-45 | The probe ends at the key, or at an empty slot with no empty slot before it |
| `OrderIndexes.OrderIndex.Find` | include/OrderIndex.hpp:37-46 | The map's value for the key, or none |
| `OrderIndexes.OrderIndex.TryInsert` | include/OrderIndex.hpp:48-62 | True exactly for a usable, absent key; then the map gains that entry, otherwise it is unchanged. The table doubles exactly when one more entry would exceed half of it, also for a key that is then refused |
| `OrderIndexes.RefusedInsertGrows` | include/OrderIndex.hpp:48-55 | A reachable refusal that doubles the table |
| `OrderIndexes.OrderIndex.Erase` | include/OrderIndex.hpp:64-86 | True exactly for a present key; the map loses that key and nothing else |
| `OrderIndexes.OrderIndex.CloseHole` | include/OrderIndex.hpp:72-83 | The backward shift restores a table whose keys are all reachable |
| `OrderIndexes.OrderIndex.CapacityFor` | include/OrderIndex.hpp:94-98 | For every argument for which the loop ends: a power of two from 16 up that reaches the goal and is less than twice it |
| `OrderIndexes.OrderIndex.GrowthFits` | include/OrderIndex.hpp:52 | Doubling a table that needs it stays below 2^64 |
| `OrderIndexes.OrderIndex.Rehash` | include/OrderIndex.hpp:103-118 | The same map in a table of the new capacity |
| `OrderIndexes.OrderIndex.PlaceUnique` | include/OrderIndex.hpp:120-126 | The map gains the absent key |
| `OrderIndexes.CapacityForEndsIff` | include/OrderIndex.hpp:94-98 | With 64-bit wrap-around, the doubling reaches its goal if and only if twice the entries modulo 2^64 is at most 2^63 |
| `OrderIndexes.CapacityForNeverEnds` | docs/code_quality.md:122 | For 2^62 + 1 entries no doubling reaches the goal |
| `OrderIndexes.WrappedRequest` | include/OrderIndex.hpp:94-98 | For 2^63 entries the table is empty with 16 slots |
| `ObjectPools.ObjectPool.constructor` | include/ObjectPool.hpp:31 | One block, no live objects, nothing free |
| `ObjectPools.ObjectPool.Acquire` | include/ObjectPool.hpp:35-48 | A slot that was not live, taken from the front of the free list if there is one; a new block only when every slot is taken; no other object changes |
| `ObjectPools.ObjectPool.Release` | include/ObjectPool.hpp:50-54 | The slot is no longer live and is next to be handed out; no other object changes |
| `ObjectPools.ObjectPool.AddBlock` | include/ObjectPool.hpp:57-60 | Unused cells are added after the existing ones, which stay where they are |
| `BookSteps.LevelAppend` | include/L3OrderBook.hpp:52-59 | Linking at the tail makes the level's queue one order longer, with links, count and shares exact |
| `BookSteps.LevelUnlink` | include/L3OrderBook.hpp:78-86 | Unlinking from anywhere takes that one order out of the queue, with links, count and shares exact |
| `BookSteps.LevelReduce` | include/L3OrderBook.hpp:64-71 | Fewer shares on an order and its level keep the sum exact and the queue as it was |
| `BookSides.LowerBound` | include/L3OrderBook.hpp:101-108 | The level at the price, or where it belongs |
| `BookSides.FoundAt` | include/L3OrderBook.hpp:110-114 | A price that has a level is found at that level |
| `BookSides.InsertSide` | include/L3OrderBook.hpp:48-51 | A new empty level at the found place keeps the side sorted and sound |
| `BookSides.EraseSide` | include/L3OrderBook.hpp:85 | Dropping an empty level keeps the side sorted and sound |
| `L3OrderBooks.DepthCounts` | include/L3OrderBook.hpp:44-45 | A level's distance from the back is the number of strictly better prices with live orders |
| `L3OrderBooks.LastIsBest` | include/L3OrderBook.hpp:90-91 | The last level is at the best price of any live order on its side; there is none exactly when the side is empty |
| `L3OrderBooks.AddKeeps` | include/L3OrderBook.hpp:46-61 | Adding keeps both sides equal to the flat list filtered by side and price in arrival order |
| `L3OrderBooks.ReduceKeeps` | include/L3OrderBook.hpp:64-71 | Reducing keeps both sides equal to the filtered flat list |
| `L3OrderBooks.RemoveKeeps` | include/L3OrderBook.hpp:74-88 | Removing keeps both sides equal to the filtered flat list |
| `L3OrderBooks.L3OrderBook.Add` | include/L3OrderBook.hpp:44-61 | The order is last in the book's arrival list; the answer counts the better prices; other orders change in their links only |
| `L3OrderBooks.L3OrderBook.Reduce` | include/L3OrderBook.hpp:63-71 | The order has that many fewer shares and keeps its place; the answer counts the better prices |
| `L3OrderBooks.L3OrderBook.Remove` | include/L3OrderBook.hpp:73-88 | The order alone leaves the arrival list; the answer counts the prices that were better |
| `L3OrderBooks.L3OrderBook.FindLevel` | include/L3OrderBook.hpp:110-114 | The level of a linked order, which is always there |
| `L3OrderBooks.L3OrderBook.QueriesAreRight` | include/L3OrderBook.hpp:90-93 | Best bid, best ask and crossed answer as the flat list would |
| `BookWorld.AddConsistent` | include/ItchBook.hpp:226-240 | A new indexed and linked order keeps the index a bijection with the linked orders of all books |
| `BookWorld.RemoveConsistent` | include/ItchBook.hpp:262-267 | Unlinking, unindexing and releasing one order keeps that bijection |
| `BookWorld.SlotIsLinked` | include/ItchBook.hpp:262-267 | A live slot is linked in the book of its own instrument |
| `BookReference.IndexFinds` | include/ItchBook.hpp:217-224 | The index finds exactly the live references, at the order that carries each |
| `BookReference.WorldIsUnique` | include/ItchBook.hpp:233-239 | No reference is live twice, in any book |
| `BookReference.AddWorld` | include/ItchBook.hpp:226-240 | The pointer-level add is an append to one flat list, and one more live order |
| `BookReference.ReduceWorld` | include/ItchBook.hpp:252-260 | The pointer-level reduction changes one entry where it stands |
| `BookReference.RemoveWorld` | include/ItchBook.hpp:262-267 | The pointer-level removal drops one entry, and one live order |
| `BookReference.LevelCountsAddUp` | include/L3OrderBook.hpp:34-40 | The order counts of a book's levels add up to its live orders |
| `BookLaws.RunUnique` | include/ItchBook.hpp:233-239 | Over every run, duplicates and replacements onto live references included, no reference becomes live twice |
| `BookLaws.ReplaceGoesToTheBack` | include/ItchBook.hpp:124-137 | The old order is gone and the new one, if its reference is usable, is last in the same instrument's list on the same side |
| `BookLaws.TakesAddUp` | include/ItchBook.hpp:252-260 | Two executions of an order leave what one execution of the sum leaves, over-executions included |
| `BookMachine.BestPriceIs` | include/ItchBook.hpp:201-215 | The best price of a list is the one no live order of its side beats, and the top shows it with all the shares there |
| `BookTotals.ListsFollow` | include/ItchBook.hpp:90-162 | Every message changes the flat lists as its order event does, and no other list |
| `BookTotals.HandleCounted` | include/ItchBook.hpp:241 | `liveOrders` is the number of entries after every message, never above its peak, and no message makes more than one order live |
| `BookTotals.ToldIsInformed` | include/ItchBook.hpp:184-199 | One call when the top changed, and none otherwise, keeps what the listener last heard equal to the books |
| `BookTotals.HandleInforms` | include/ItchBook.hpp:184-199 | After every message, replaces included, the listener's view of every instrument is current, with at most one call |
| `BookTotals.RunTotals` | include/ItchBook.hpp:90-162 | Over every run: the lists are the reference run's, references are unique, live orders counted, the listener informed, and there are at most as many calls as messages |
| `BookMachine.Bucket` | include/ItchBook.hpp:269-272 | The range of depth, of those that begin at 0, 1, 2, 5, 10 and 50, that the depth lies in |
| `BookCounts.TakenIs` | include/ItchBook.hpp:252-260 | Taking shares counts one depth, the order's own, and one over-execution exactly when more is asked for than is left |
| `BookCounts.FreedByItself` | include/ItchBook.hpp:124-137 | A replacement's new reference is refused exactly when it is reserved, or live and not the one the message itself frees |
| `BookCounts.StepTallied` | include/ItchBook.hpp:90-162 | For each message: every counter grows by one exactly when the message is of its kind in the state it finds, and so does each bucket of the depth histogram, for the order touched and the order that joins |
| `BookCounts.StepFollowed` | include/ItchBook.hpp:90-162 | For each message: market hours, last prices and trading states are what it sets or as before; one call is made, with the message's time, exactly when the top of the book it changed is another; a book left crossed while trading is kept while there is room |
| `BookRuns.RunsAreExact` | include/ItchBook.hpp:90-162 | Over every run: each counter, histogram bucket and per-instrument count is the number of such messages; market hours, last price and trading state are the latest ones set; the calls and the first hundred crossed books are those of the messages in order; the peak is the most orders ever live |
| `BookRuns.UnknownReferences` | include/ItchBook.hpp:217-224 | Over every run, unknown references are as many as messages named an order that was not live when they came |
| `ItchBooks.NewBuilder` | include/ItchBook.hpp:80-88 | The machine's empty state: no orders, every instrument trading, nothing heard |
| `ItchBooks.ItchBookBuilder.Lookup` | include/ItchBook.hpp:217-224 | Finds an order exactly for a live reference; otherwise the count of unknown references is one more, and nothing else changes |
| `ItchBooks.ItchBookBuilder.Reserve` | include/ItchBook.hpp:227-239 | A usable reference gets a slot and an index entry; an unusable one leaves everything as it was and is counted |
| `ItchBooks.ItchBookBuilder.LinkOrder` | include/ItchBook.hpp:240 | The order is last in its book's list, and the histogram has one more at the number of strictly better prices |
| `ItchBooks.ItchBookBuilder.UnlinkOrder` | include/ItchBook.hpp:263 | The order alone leaves its book's list, and the histogram has one more at the number of prices that were better |
| `ItchBooks.ItchBookBuilder.AddOrder` | include/ItchBook.hpp:226-250 | The whole state is the machine's after adding: the entry appended, or counted as a duplicate; depth, peak and crossed books exact |
| `ItchBooks.ItchBookBuilder.NoteCrossed` | include/ItchBook.hpp:242-249 | A book crossed during market hours is counted in total and for its instrument, and kept with its times while there is room if it is trading |
| `ItchBooks.ItchBookBuilder.TakeShares` | include/ItchBook.hpp:252-260 | The whole state is the machine's after taking at most what the order has left |
| `ItchBooks.ItchBookBuilder.RemoveOrder` | include/ItchBook.hpp:262-267 | The whole state is the machine's after removing the reference |
| `ItchBooks.ItchBookBuilder.BestOf` | include/ItchBook.hpp:201-215 | The best bid and ask of the flat list, with the shares there, or zeros |
| `ItchBooks.ItchBookBuilder.Tell` | include/ItchBook.hpp:186-199 | One call with the new top exactly when a price or size of it changed, and no other change |
| `ItchBooks.ItchBookBuilder.OnAdd` | include/ItchBook.hpp:91-96 | Books, statistics and notifications are the machine's after a new order |
| `ItchBooks.ItchBookBuilder.OnExecuted` | include/ItchBook.hpp:98-104 | The same for an execution, with the last price that of the order |
| `ItchBooks.ItchBookBuilder.OnExecutedWithPrice` | include/ItchBook.hpp:106-112 | The same for an execution at its own price, which becomes the last price if it is printable |
| `ItchBooks.ItchBookBuilder.OnCancel` | include/ItchBook.hpp:114-117 | The same for a partial cancel |
| `ItchBooks.ItchBookBuilder.OnDelete` | include/ItchBook.hpp:119-122 | The same for a delete |
| `ItchBooks.ItchBookBuilder.OnReplace` | include/ItchBook.hpp:124-137 | The same for a replace: one call about the result, none about the moment in between |
| `ItchBooks.ItchBookBuilder.OnTrade` | include/ItchBook.hpp:139-143 | The trade is counted and is the last price; the books do not change |
| `ItchBooks.ItchBookBuilder.OnSystemEvent` | include/ItchBook.hpp:151-154 | Market hours open at 'Q' and close at 'M', and nothing else changes |
| `ItchBooks.ItchBookBuilder.OnTradingAction` | include/ItchBook.hpp:156-162 | The action is counted, with that instrument's state and time, and nothing else changes |
| `ItchBooks.DepthIs` | include/L3OrderBook.hpp:44-45 | The depth a book reports is the number of better prices in the flat list |
| `ItchBooks.TopIs` | include/ItchBook.hpp:201-215 | The back levels of a book are the flat list's top, sizes included |
| `ItchBooks.CrossedIs` | include/L3OrderBook.hpp:93 | A book is crossed exactly when some live bid is at or above some live ask |
| `BookReplay.Replay` | include/ItchBook.hpp:90-162 | After any sequence of messages a new builder is in the machine's state, so every law of it holds: unknown references, for one, are as many as messages named an order that was not live at that moment |
| `BookReplay.Dispatch` | include/ItchBook.hpp:90-162 | Each kind of message has the machine's effect on the whole state |
| `BookReplay.LiveOrdersCounted` | include/ItchBook.hpp:241 | The index size, `liveOrders`, the entries of all lists and the order counts of all levels of all books are one number |
| `SlotMemory.LatestIsRead` | docs/memory_ordering.md:26 | A reader ordered after a slot's latest write sees that write and no other |
| `RingBuffers.ClaimKeeps` | include/RingBuffer.hpp:49-62 | Claiming on a cached or reloaded tail, however stale, keeps the invariant; it succeeds exactly when that tail leaves room |
| `RingBuffers.WriteKeeps` | include/RingBuffer.hpp:61-68 | Writing the claimed slot overwrites nothing the consumer may still read |
| `RingBuffers.PeekKeeps` | include/RingBuffer.hpp:73-86 | Peeking on a cached or reloaded head, however stale, keeps the invariant; it succeeds exactly when that head is ahead |
| `RingBuffers.ReadIsExact` | include/RingBuffer.hpp:85-92 | Every read the memory allows returns the message published at that index |
| `RingBuffers.Safety` | include/RingBuffer.hpp:49-92 | Every interleaving with every allowed stale load keeps the invariant, with 64-bit counters that wrap |
| `RingBuffers.Fifo` | include/RingBuffer.hpp:49-92 | What was consumed is a prefix of what was published, and cached tail <= tail <= cached head <= head <= cached tail + size |
| `RingBuffers.NoOverlap` | include/RingBuffer.hpp:61 | The slot being written is never one with a published, unconsumed message |
| `RingBuffers.NoRace` | docs/memory_ordering.md:26 | Each access to a slot is ordered, by an index the accessing side has loaded, after every earlier access of the other side |
| `RingBuffers.ClaimFailsOnlyWhenFull` | include/RingBuffer.hpp:52-60 | With an up-to-date tail, a claim fails exactly when the queue is full, and then the consumer has a message |
| `RingBuffers.PeekFailsOnlyWhenEmpty` | include/RingBuffer.hpp:76-84 | With an up-to-date head, a peek fails exactly when the queue is empty |
| `RingBuffers.RelaxedPublishReadsStale` | docs/memory_ordering.md:44 | With a relaxed publish there is a run in which the consumer reads an old message in place of the new one |
| `RingBuffers.RelaxedConsumeReadsAhead` | docs/memory_ordering.md:35 | With a relaxed consume there is a run in which the producer overwrites a slot before it is read, and the consumer gets a message that was never published |
| `RingVariants.RingV1Store.Claim` | bench/RingVariants.hpp:56-61 | A slot exactly when the queue is not full |
| `RingVariants.RingV1Store.Peek` | bench/RingVariants.hpp:63-68 | The oldest unconsumed message exactly when there is one |
| `RingVariants.RingV2.Claim` | bench/RingVariants.hpp:95-101 | Fails exactly when the queue is full, whatever the cached tail says |
| `RingVariants.RingV2.Publish` | bench/RingVariants.hpp:103-109 | The message joins the log; it becomes visible when the batch is complete |
| `RingVariants.RingV2.Flush` | bench/RingVariants.hpp:111-112 | Every published message is visible |
| `RingVariants.RingV2.Peek` | bench/RingVariants.hpp:114-121 | Fails exactly when nothing is visible, whatever the cached head says; otherwise the oldest unconsumed message |
| `RingVariants.RingV2.FullMeansVisible` | bench/RingVariants.hpp:75 | A full producer always leaves the consumer something to see, so batching never blocks both sides |
| `RingVariants.DoV1` | bench/RingVariants.hpp:49-70 | Each call answers as the plain queue that shows every message at once |
| `RingVariants.DoV2` | bench/RingVariants.hpp:73-124 | Each call answers as the plain queue that shows messages in batches |
| `RingVariants.Lockstep` | bench/RingVariants.hpp:49-124 | Over any sequence of calls both answer as the plain queue, and with batch 1 they agree call for call |
| `KernelBypass.FullIff` | include/KernelBypass.hpp:41 | The next descriptor is still ready exactly when the ring is full of unpolled packets |
| `KernelBypass.HandOff` | include/KernelBypass.hpp:39-56 | At every interleaving, stale flags and data reads included, the ready descriptors are exactly the accepted, unpolled window; the two sides never own the same descriptor, and every write to one happens before the CPU reads it; polled packets are a prefix of accepted ones |
| `KernelBypass.RefusedWhenFull` | include/KernelBypass.hpp:39-41 | With an up-to-date flag a packet is refused if and only if the ring is full of unpolled packets; a full ring never takes one |
| `KernelBypass.TakenIn` | include/KernelBypass.hpp:39-45 | With room, receiving succeeds: the packet is accepted behind the others and its descriptor, and no other, is handed over |
| `KernelBypass.FoundWhenWaiting` | include/KernelBypass.hpp:49-51 | With an up-to-date flag a poll finds a packet if and only if one is waiting; with none waiting it never does |
| `KernelBypass.HandedOut` | include/KernelBypass.hpp:49-56 | With a packet waiting, a poll hands out the oldest one, whichever write the read may return, and frees its descriptor |
| `KernelBypass.InAndOut` | include/KernelBypass.hpp:39-56 | At every interleaving, accepted are the packets that were not refused, in order, as many as flags were set, and polled are the first of them, as many as flags were cleared |
| `ItchReaders.FramingOfParse` | include/ItchParser.hpp:26-42 | Putting the frames of the plain parse back behind their lengths gives the input, with no whole frame left over |
| `ItchReaders.ParseOfFraming` | include/ItchParser.hpp:26-42 | Any frames, empty ones included, are found again in their framing |
| `ItchReaders.EveryFrameIsCounted` | include/ItchParser.hpp:43-59 | Every frame is returned, or skipped and counted once under one reason |
| `ItchReaders.NextIsParse` | include/ItchParser.hpp:26-61 | One call takes the next well-formed message off the plain parse and accounts for every frame and byte before it |
| `ItchReaders.ItchReader.Ensure` | include/ItchParser.hpp:70-85 | For every split of the reads, true exactly when the input has that many bytes left, none of them lost or moved |
| `ItchReaders.ItchReader.Compact` | include/ItchParser.hpp:74-78 | Moving the buffered bytes to the front changes none of what remains |
| `ItchReaders.ItchReader.Refill` | include/ItchParser.hpp:79-83 | Reads until enough is buffered or the input has ended, without losing a byte |
| `ItchReaders.ItchReader.NextFrame` | include/ItchParser.hpp:32-42 | The next whole frame, or none, with `truncated` exactly when bytes are left over |
| `ItchReaders.ItchReader.Next` | include/ItchParser.hpp:30-61 | The message is as long as its type says, or there is none; every frame before it is not, and is counted as of no type, or as empty or of the wrong length; message, remaining bytes and counters are those of the recursive definition |
| `ItchReaders.ReadAll` | include/ItchParser.hpp:21-67 | For every buffer size and split: returned are exactly the frames as long as their types say, in order; the counts are those of the frames of no type and of the empty ones or those of the wrong length; messages = returned + skipped, bytes exact, truncated if and only if bytes are left over |
| `LatencyHistograms.BucketOfIff` | include/LatencyHistogram.hpp:24-44 | A value is counted in a bucket if and only if it lies between that bucket's lowest and highest values |
| `LatencyHistograms.BucketsTile` | include/LatencyHistogram.hpp:32-44 | The buckets run from 0 to 2^64 - 1, in order, without gap or overlap |
| `LatencyHistograms.InItsBucket` | include/LatencyHistogram.hpp:22-30 | Every 64-bit value has a bucket below the bucket count |
| `LatencyHistograms.IndexIsMonotone` | include/LatencyHistogram.hpp:24-30 | A larger value is never in a lower bucket |
| `LatencyHistograms.NarrowBuckets` | include/LatencyHistogram.hpp:13-15 | No bucket is wider than 1/64 of its low end |
| `LatencyHistograms.BucketHolds` | include/LatencyHistogram.hpp:46-47 | A bucket counts exactly the recorded values between its bounds |
| `LatencyHistograms.RankedOnce` | include/LatencyHistogram.hpp:59-60 | Each rank belongs to exactly one recorded value |
| `LatencyHistograms.RankIsLeast` | include/LatencyHistogram.hpp:67-68 | The rank is the least one, from 1 up, that covers the product, however that was rounded |
| `LatencyHistograms.ShareBounds` | include/LatencyHistogram.hpp:67-68 | The exact product is that many hundredths of the values, and never more than all of them |
| `LatencyHistograms.LatencyHistogram.constructor` | include/LatencyHistogram.hpp:86-91 | Nothing recorded |
| `LatencyHistograms.LatencyHistogram.Record` | include/LatencyHistogram.hpp:46-52 | The value joins what was recorded, and every count and extreme stays exact |
| `LatencyHistograms.LatencyHistogram.Reset` | include/LatencyHistogram.hpp:78-84 | Nothing recorded, as when new |
| `LatencyHistograms.LatencyHistogram.MinRecorded` | include/LatencyHistogram.hpp:55 | The least recorded value, or 0 |
| `LatencyHistograms.LatencyHistogram.MaxRecorded` | include/LatencyHistogram.hpp:56 | The greatest recorded value, or 0 |
| `LatencyHistograms.LatencyHistogram.ValueAtRank` | include/LatencyHistogram.hpp:70-75 | For the exact value x of that rank, the answer is at least x, at most x + x/64, and never above the maximum |
| `LatencyHistograms.LatencyHistogram.ValueAtPercentile` | include/LatencyHistogram.hpp:59-76 | Not a number, or nothing above zero, gives the minimum. Otherwise, for any rounding of the product: the answer is within 1/64 of the exact value of its rank, is never above the maximum, and covers the product or is the maximum; if the product was not rounded down, at least `percentile` hundredths of the values are at or below the answer |
| `OrderBooks.LowerBound` | include/OrderBook.hpp:21-24 | The first order not strictly ahead of the price |
| `OrderBooks.OrderBook.AddOrder` | include/OrderBook.hpp:18-34 | The side stays sorted; the new order follows every strictly better one and precedes the rest, those at its own price included |
| `OrderBooks.OrderBook.Match` | include/OrderBook.hpp:36-64 | Ends uncrossed; both sides lose the traded quantity, from their best orders first, and id by id what the trades say; every trade is between two original orders willing to trade at the ask's price and uses up its bid or its ask; the total is the largest quantity any one price could trade |
| `OrderBooks.NothingLeft` | include/OrderBook.hpp:43 | An uncrossed book has no price at which both sides would trade |
| `OrderBooks.TradedStep` | include/OrderBook.hpp:44-58 | Each trade takes the same quantity off what a side offers at every price worth trading at |
| `OrderBooks.BestVolume` | include/OrderBook.hpp:36-64 | What the loop keeps, in an uncrossed book, means that no price could have traded more and some price trades as much |

## Left out

- Sequencer: the caller's gap-wait timer is not modelled; each round says whether the wait has run out, which covers every timer. The statistics are unbounded, where the code's 64-bit counters would wrap.
- MoldFeed.Send: sockets, pacing and deliberate drops belong to the network, which may lose anything; the sender sends fewer than 2^64 - 1 messages, since its sequence numbers would wrap after that.
- MoldFeed.EndToEnd: nothing is forged in the session's own name, and the first accepted packet is of that session; the first packet fixes the session (include/MoldUdp64.hpp:167), so another session's coming first would hide this one.
- OrderIndexes.OrderIndex.Probe: the loop that find, tryInsert, erase and placeUnique each write out is modelled once; erase's tests of key and emptiness come in the other order, with the same result.
- OrderIndexes.OrderIndex.TryInsert: requires fewer than 2^62 entries, below which growing cannot wrap.
- ObjectPools: addresses, alignment and placement new; slots are numbers and a block is a stretch of cells, which keeps the free list threaded through the released cells themselves.
- L3OrderBooks: order counts and share sums are unbounded, where the code has 32 and 64 bits; std::lower_bound is a function with its specified result.
- ItchBooks.ItchBookBuilder: the stock directory's symbols are not kept; a listener is always present, and its calls are a list; statistics are unbounded.
- BookReplay.Replay: at most 2^62 messages, so that the index has room for all of them.
- RingBuffers: a client writes between claim and publish and reads between peek and consume; only the memory-model behaviours that release and acquire decide on are modelled (stale index loads, stale slot reads, and a read overtaken by a relaxed store).
- RingVariants: calls are atomic and loads up to date, so the variants are compared as sequential objects; RingV0FetchAdd and cache-line layout are left out.
- KernelBypass.HandOff: the NIC uses consecutive slots and retries after a refusal, as the code's callers do.
- ItchReaders: per-type message fields, dispatch and encoding; a read returns nothing only at the end of the input.
- LatencyHistograms: the mean is left out.
- OrderBooks: prices are integers, where the code has doubles, and quantities are unbounded; trade timestamps and printing are left out.
- Timers, thread pinning, command lines, benchmarks, the strategy, matrix, FPGA and simulator code.
