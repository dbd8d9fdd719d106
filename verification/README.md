# Verified model of the limit order book and matching engine

A Dafny model of a low-latency limit order book, with proofs of what its parts
promise separately and together. `dafny verify dfyconfig.toml` checks all of it.

The system takes orders through a gateway that stamps them, passes them through
a lock-free ring buffer, and matches them in price-time priority. It has two
engines: a fast one over array-indexed ladders of intrusive lists, occupancy
bitsets, a freelist pool and an id map, and a naive reference engine over sorted
maps of lists that cancels lazily by leaving tombstones. The repository compares
the two by fuzzing; here the comparison is a theorem.

## How the files fit together

| file | content |
|---|---|
| `Types.dfy` | orders, trades, reports, the value of a resting order |
| `BookSpec.dfy` | price-time priority and the id map as a pure state machine: the specification of both engines |
| `BookLaws.dfy` | what every operation of the specification keeps; insert and cancel round trips |
| `MatchingLaws.dfy` | greedy price-time priority, maximal execution, additivity |
| `Bitset.dfy` | the word-array bitset, refining a set of naturals |
| `OrderStore.dfy` | orders with links, the FIFO level, the pool; id map and freelist as values |
| `IdMap.dfy` | which order an id map names, as values |
| `Levels.dfy` | flattening an array of levels into a priority queue |
| `Ladder.dfy` | one price ladder: levels and bitset |
| `Rules.dfy` | the rules over the fields of orders, trades and reports alone; they fix every answer |
| `Origins.dfy` | resting orders are what is left of submitted ones |
| `Engine.dfy` | the fast engine, refining the specification |
| `RefLevels.dfy`, `ReferenceEngine.dfy` | the reference engine, refining the same specification by dropping tombstones |
| `Runs.dfy` | whole runs: when the engines agree, what reachable books keep |
| `Differential.dfy` | both engines side by side |
| `Conservation.dfy`, `Ledger.dfy` | where every quantity goes; final reports tell the truth |
| `Lifecycle.dfy` | every submission is answered exactly once |
| `Mirror.dfy` | selling is buying in a mirror |
| `Spsc.dfy` | the ring buffer as interleaved atomic steps, and as a class |
| `Gateway.dfy` | stamping, and stamp order from gateway to price level |

The mutable parts (bitset, lists, pool, ladders, both engines, queue, gateway)
are classes whose methods work step by step as the C++ code does. Each is proved
against a pure function, and the laws are proved about those functions. `Rules.dfy`
states what an order and a cancel must answer a second time, over the fields alone,
and proves that these rules leave no choice; both engines promise them.

## What the code does that its documentation does not say

- A fill-or-kill order behaves exactly like an immediate-or-cancel order in both
  engines. It fills in part exactly if the opposite side offers something that
  it accepts but not enough (`MatchingLaws.FokIsIoc`, `FokIsAllOrNothingIff`,
  `FokFillsInPart`).
- What matching leaves of a Limit order priced beyond the ladder is reported
  Resting if a slot is free: it takes the slot and a map entry but is on no level,
  so it is lost. It never trades, and the engine's own check fails while its id
  names it. Its first cancel reports it and frees the slot but leaves the map
  entry; the engine goes on as before, and only a second cancel of that id, unless
  the id was used again in between, is outside this model
  (`Engine.MatchingEngine.ProcessOrder`, `CancelOrder`, `ValidPasses`,
  `Differential.OutOfRangeOrder`).
- An order that comes to rest under an id in use takes the map entry over. Both
  engines then cancel the order that came last, and any fill or cancel under the id
  unmaps it, so the earlier order can no longer be cancelled. The specification has
  the id map, so the laws hold for reused ids too unless they say otherwise
  (`BookLaws.RestCancelRoundTrip`, `Runs.RunKeepsNamed`, `Runs.ReusedIdStrands`).
- The two engines have the same events, books and id maps at every step exactly if
  no well-formed Limit order has a non-positive price, which only the fast engine
  refuses, or would rest in a full pool, which only the fast engine has, or is lost
  (`Runs.StepsAgree`, `Runs.RunsAgreeIff`). Comparing events and calling the checks
  of both engines after every step succeeds in exactly these runs
  (`Differential.RunBoth`). There is an input for each of the three cases.
- Quantities and answers balance at every step with the lost orders, and without
  them over a run exactly for the ids of which no order is lost in the end
  (`Conservation.RunConserves`, `Lifecycle.AnsweredExactlyOnce`).
- The best prices of the reference count levels of tombstones. They are the best
  live prices exactly if the first level holds a live order
  (`Reference.ReferenceEngine.BestBid`, `BestAsk`, `Differential.RefQuoteAfterCancel`).
- `empty` of the queue compares two loads whose order C++ leaves open. It reports
  an empty queue truthfully before a wrap if the head is loaded first, and may miss
  an item if the tail is (`Spsc.EmptyIsTrue`, `EmptyTailFirstMisses`).
- The queue never loses, repeats or reorders an item, but its emptiness test
  compares words: once the tail wraps with an item unread it stops delivering. So
  fewer than 2^64 items are ever delivered and the head never wraps
  (`Spsc.EmptinessTest`, `StallsAtWrap`, `HeadNeverWraps`).

## Model

| member | source | states |
|---|---|---|
| `Bitset.TrailingZerosIsLowest` | include/matching/bitset.h:48-55 | Of a non-zero word, counting trailing zeros names a set bit below which no bit is set. |
| `Bitset.LeadingZerosIsHighest` | include/matching/bitset.h:38-45 | Of a non-zero word, counting leading zeros names a set bit above which no bit is set. |
| `Bitset.DynamicBitset.constructor` | include/matching/bitset.h:14-18 | A new bitset of any size, multiple of 64 or not, stands for the empty set. |
| `Bitset.DynamicBitset.Set` | include/matching/bitset.h:20-24 | Adds exactly this bit to the set, and nothing if the bit is out of range. |
| `Bitset.DynamicBitset.Clear` | include/matching/bitset.h:26-30 | Removes exactly this bit from the set. |
| `Bitset.DynamicBitset.Test` | include/matching/bitset.h:32-35 | True exactly for the members, false for every number out of range. |
| `Bitset.DynamicBitset.FindHighest` | include/matching/bitset.h:38-45 | The maximum of the set over all words, or -1 exactly if the set is empty. |
| `Bitset.DynamicBitset.FindLowest` | include/matching/bitset.h:48-55 | The minimum of the set over all words, or -1 exactly if the set is empty. |
| `OrderStore.PriceLevelList.PushBack` | include/matching/order.h:43-53 | The level's sequence grows by the order at its end; both link directions, head, tail and size still agree with it. |
| `OrderStore.PriceLevelList.Remove` | include/matching/order.h:55-69 | The order leaves the level from wherever it stands, the others keep their sequence, and the links of the removed order are cleared. |
| `OrderStore.Relinked` | include/matching/order.h:56-65 | Linking the two neighbours of one order to each other leaves a consistent doubly-linked chain of all the others. |
| `OrderStore.OrderPool.constructor` | include/matching/order.h:92-101 | For every positive capacity all reachable slots are free, in slot order, and none is live; a slot whose index is the end mark or beyond is never reached. |
| `OrderStore.OrderPool.Allocate` | include/matching/order.h:103-114 | Hands out the first free slot with cleared links and its own index, never a live order; null exactly if no slot is free. |
| `OrderStore.OrderPool.Deallocate` | include/matching/order.h:116-120 | The slot becomes the first free one; the freelist stays a duplicate-free chain of the slots that are not live. |
| `OrderStore.OrderPool.SlotsArePartitioned` | include/matching/order.h:90-120 | Free slots and live orders together always number the usable slots, so the pool is exhausted exactly when all its orders are live. |
| `OrderStore.TakeReleaseRoundTrip` | src/matching_engine.cpp:93-108 | Allocating an order for an id and releasing it restores the freelist exactly, and the id map but for what the id was mapped to before; all of it if it was not mapped. |
| `OrderStore.ReleaseAllConcat` | src/matching_engine.cpp:160-177 | Releasing two lists of filled orders in turn, each under its own id, is releasing their concatenation. |
| `IdMap.TakenKeepsPoints` | src/matching_engine.cpp:160-165 | When an order leaves its level and its id the map, every other id still names the last order with that id at its price. |
| `IdMap.PutKeepsPoints` | src/matching_engine.cpp:257-259 | When an order comes last on its level and its id is mapped to it, every id names the last order with that id at its price, reused or not. |
| `IdMap.LostKeepsPoints` | src/matching_engine.cpp:107-108 | The same when an order without a level is mapped. |
| `IdMap.FreedKeepsPoints` | src/matching_engine.cpp:262-265 | The same when a lost order is given back while its id stays mapped. |
| `Ladder.PriceLadder.constructor` | include/matching/price_ladder.h:19-26 | All levels are empty, distinct and unmarked. |
| `Ladder.PriceLadder.FindBestBid` | include/matching/price_ladder.h:69-69 | The highest non-empty level, or -1 exactly if all levels are empty. |
| `Ladder.PriceLadder.FindBestAsk` | include/matching/price_ladder.h:72-72 | The lowest non-empty level, or -1 exactly if all levels are empty. |
| `Ladder.PriceLadder.MarkOccupied` | include/matching/price_ladder.h:61-61 | After marking a level that received an order, a bit is set exactly if its level is non-empty. |
| `Ladder.PriceLadder.MarkEmpty` | include/matching/price_ladder.h:62-66 | After an order left a level, a bit is set exactly if its level is non-empty, whether or not the level became empty. |
| `Ladder.PriceLadder.Append` | src/matching_engine.cpp:257-258 | The order ends up last in the level of its price; no other level, link or bit changes meaning. |
| `Ladder.PriceLadder.Detach` | src/matching_engine.cpp:267-268 | Exactly this order leaves its level; no other level, link or bit changes meaning. |
| `Ladder.PriceLadder.PlaceOf` | src/matching_engine.cpp:263-267 | Every order of a ladder stands in the level of its own price, on the ladder of its own side. |
| `Ladder.PriceLadder.Untouched` | include/matching/order.h:116-120 | A ladder stays valid whatever happens to other orders, and to the pool indices of its own. |
| `Ladder.PriceLadder.BestBidPrice` | include/matching/price_ladder.h:75-78 | The highest marked price, or 0 if none is marked, whether or not bits and levels agree. |
| `Ladder.PriceLadder.BestAskPrice` | include/matching/price_ladder.h:81-84 | The lowest marked price, or 0 if none is marked, whether or not bits and levels agree. |
| `Ladder.PriceLadder.RestingQuantity` | src/matching_engine.cpp:30-33 | Walking the links sums what all the orders of the level have left. |
| `Ladder.PriceLadder.VerifyInvariants` | src/price_ladder.cpp:6-13 | True exactly if every bit agrees with its level. |
| `Levels.BestLevelIsFront` | src/matching_engine.cpp:127-130 | The first order of the best non-empty level is the first order of the whole side. |
| `Levels.FillLevelFillsQueue` | src/matching_engine.cpp:144-181 | A fill at the front of the best level is the fill of the front of the priority queue. |
| `Levels.AppendInserts` | src/matching_engine.cpp:257-257 | Appending to the level of a price puts the order behind everything at least as good and before everything worse. |
| `Levels.RemoveFromLevel` | src/matching_engine.cpp:267-267 | Removing an order from its level removes exactly that order from the priority queue. |
| `Levels.FindLastOfLevel` | src/matching_engine.cpp:275-281 | The last order of an id at a price of the whole side is the last one of that id on the level of the price. |
| `Levels.TotalAtIsLevel` | src/matching_engine.cpp:25-35 | What a side has left at a price is what the level of that price has left. |
| `Levels.QueueDeterminesLevels` | src/matching_engine.cpp:257-268 | Two ladders of the same size that stand for the same priority queue are equal level by level. |
| `BookLaws.MatchKeepsInv` | src/matching_engine.cpp:126-183 | Matching keeps both sides sound, sorted and uncrossed, whatever the ids. |
| `BookLaws.MatchSweeps` | src/matching_engine.cpp:144-181 | Matching takes a first stretch of the queue out, with one report each in order, and leaves the other orders in their places. |
| `BookLaws.MatchStopsWhenDone` | src/matching_engine.cpp:126-144 | Matching never overfills, and ends only when the order is filled, the opposite side is empty or its best price is refused. |
| `BookLaws.InsertPlace` | src/matching_engine.cpp:248-260 | An order is placed behind exactly those that are at least as good. |
| `BookLaws.InsertedIsLast` | src/matching_engine.cpp:257-259 | A new order is the last of its id at its price, which is the order that the map names by its id. |
| `BookLaws.RestKeepsInv` | src/matching_engine.cpp:92-110 | What a matched Limit order has left rests without crossing the book or breaking price-time order. |
| `BookLaws.SettleKeepsInv` | src/matching_engine.cpp:66-122 | An accepted order leaves both sides sound and sorted and the book uncrossed, whatever its id. |
| `BookLaws.CancelKeepsInv` | src/matching_engine.cpp:272-295 | A cancel keeps both sides sound and sorted and the book uncrossed, whatever the ids. |
| `BookLaws.ProcessKeepsUnique` | src/matching_engine.cpp:107-108 | Ids stay distinct and every resting order mapped, if no order comes to rest under the id of a resting one; lost orders included. |
| `BookLaws.CancelKeepsUnique` | src/matching_engine.cpp:279-294 | A cancel, of a lost order too, keeps ids distinct and every other resting order mapped. |
| `BookLaws.CancelTakesPlace` | src/matching_engine.cpp:279-294 | While ids are distinct, cancelling the id of a resting order takes out exactly that order, wherever it stands, and reports what it filled and what it had left. |
| `BookLaws.NothingToCancel` | src/matching_engine.cpp:275-279 | Cancelling an id that neither rests nor is lost changes nothing and reports nothing. |
| `BookLaws.RestCancelRoundTrip` | src/matching_engine.cpp:107-108 | A cancel takes out the order that came to rest last under the id, even if the id was in use: the queues are as they were and the id is mapped no more. |
| `BookLaws.ProcessCancelRoundTrip` | src/matching_engine.cpp:44-122 | A Limit order that trades with nobody, once cancelled, has left both queues as they were, even if its id was in use; the id is mapped no more. |
| `MatchingLaws.MatchIsGreedy` | src/matching_engine.cpp:126-183 | The trades are the greedy fills of a prefix of the queue, best price and oldest first: each at the price of its resting order, stamped by the incoming one, with buyer and seller in their places, and within the limit. All but the last fill their order completely, and exactly the completely filled ones are reported, with their whole quantity, and gone. |
| `MatchingLaws.MaximalExecution` | src/matching_engine.cpp:126-183 | The filled quantity is the smaller of what is wanted and all that the opposite side offers at no more than the limit of a buy, no less than that of a sell, or any price for a Market order; the opposite side loses exactly that. |
| `MatchingLaws.VerdictIsExact` | src/matching_engine.cpp:44-122 | Every order with a positive quantity, an id and, as a Limit order on the fast engine, a positive price: the filled quantity is maximal, filled and remaining add up, Filled exactly if nothing remains, Resting exactly for a Limit order with a rest and a free slot; the opposite total falls by what is filled, and the own total grows by what remains exactly if a Resting order has a level. |
| `MatchingLaws.FokIsIoc` | src/matching_engine.cpp:73-74 | A FOK order is treated exactly like an IOC order by both engines. |
| `MatchingLaws.FokIsAllOrNothingIff` | src/matching_engine.cpp:73-74 | A FOK order fills all or nothing exactly if the opposite side offers nothing that it accepts, or enough. |
| `MatchingLaws.FokFillsInPart` | src/reference_engine.cpp:86-95 | A concrete FOK buy of 8 takes an ask of 5 and is cancelled for the rest, in both engines. |
| `MatchingLaws.MatchIsAdditive` | src/matching_engine.cpp:126-183 | Matching a quantity in two parts gives the book, reports and trades of matching it at once, up to the one trade split at the boundary. |
| `Engine.MatchIsAdditiveForHoldings` | src/matching_engine.cpp:160-177 | Matching a quantity in two parts frees the same orders in the same order, so id map and freelist end up the same. |
| `Rules.OrderRulesDecide` | src/matching_engine.cpp:44-122 | For every order on every sound book, on either engine, the rules allow exactly one answer, the one of the specification: which orders are refused, every field of every trade and report, what the opposite queue, the own queue, the id map and the lost orders are afterwards. |
| `Rules.RefusedByTheRules` | src/matching_engine.cpp:37-57 | An order is refused exactly for a non-positive quantity, id 0 or, on the fast engine, a Limit order's non-positive price; then the book stays as it is, there is no trade, and the one report is Cancelled with nothing filled and all remaining. |
| `Rules.MatchByTheRules` | src/matching_engine.cpp:126-183 | Trade `i` of a match is with order `i` of the opposite queue at its price and within the limit; only the last may be partial, and only if nothing more is wanted; otherwise every order behind has a price beyond the limit. |
| `Rules.TradesAreDetermined` | src/matching_engine.cpp:126-183 | No two sequences of trades are by these rules. |
| `Rules.TradesAreFair` | src/matching_engine.cpp:148-155 | Every trade of either engine has the price of the resting order, the timestamp of the incoming one, the buyer and the seller by id, and a price within the limit unless it is of a Market order. |
| `Rules.LeftoverFindsNothing` | src/matching_engine.cpp:132-139 | If something of an accepted order is left, every opposite price is strictly beyond its limit, and a Market order leaves the opposite side empty. |
| `Rules.UnmatchedLimitRests` | src/matching_engine.cpp:79-110 | A Limit order that is not refused, finds no counterpart within its limit and has a slot and a level rests with all its fields and its whole quantity, and its one report says so. |
| `Rules.CancelRulesDecide` | src/matching_engine.cpp:272-295 | For every cancel but the second one of a lost order the rules allow exactly one answer, the one of the specification: the last order with the mapped id and price leaves, with one report of its id, side, price, filled and remaining quantity; lost orders likewise. |
| `Rules.RunsByTheRules` | src/matching_engine.cpp:44-295 | Every step of every run of either engine is by the rules and adds exactly one event. |
| `Rules.ReachableBooks` | src/matching_engine.cpp:248-260 | After every run bids fall and asks rise in price, every bid is below every ask, and every resting order is on its side with something left. |
| `Rules.QuantityAtPrice` | src/matching_engine.cpp:25-35 | Adding an order to a queue anywhere adds what it has left to the quantity at its price and nothing at any other price. |
| `Rules.BestPriceIsBest` | include/matching/price_ladder.h:75-84 | The best price of a side is the price of one of its orders that no other beats, and 0 for an empty side. |
| `Origins.RunKeepsOrigins` | src/matching_engine.cpp:92-110 | After every run each order of the book, resting or lost, has the id, side, type, price, quantity and timestamp of a submitted order. |
| `Origins.MatchKeepsOrigins` | src/matching_engine.cpp:144-181 | If each order of a queue has the id, side, type, price, quantity and timestamp of a submitted order, so has each order that matching leaves in it. |
| `Engine.MatchingEngine.constructor` | src/matching_engine.cpp:7-16 | A new engine is valid and empty, with 20000 levels if no positive number is asked for. |
| `Engine.MatchingEngine.Forget` | src/matching_engine.cpp:164-177 | An order that has left its level returns to the head of the freelist and its id leaves the map, whichever order that was mapped to; everything agrees again. |
| `Engine.MatchingEngine.Discard` | src/matching_engine.cpp:262-270 | Unlinking, unmarking and freeing one order and unmapping its id keeps list, bitset, map and pool consistent and changes one place of one level. |
| `Engine.MatchingEngine.Execute` | src/matching_engine.cpp:158-180 | A fill of the front order reduces it in place, or takes it out of level, bitset and pool and its id out of the map if nothing is left. |
| `Engine.MatchingEngine.FillFront` | src/matching_engine.cpp:144-181 | One turn of the inner loop is one fill of the pure specification, with its trade and report, and strictly lowers what is wanted. The trade has the resting price and the incoming stamp, and a filled order is reported with its side, price and whole quantity. |
| `Engine.MatchingEngine.SweepLevel` | src/matching_engine.cpp:141-182 | The inner loop makes progress, keeps the engine valid and leaves the outcome of the whole match unchanged. |
| `Engine.MatchingEngine.MatchBuy` | src/matching_engine.cpp:124-184 | The loops over asks terminate with the book, event, id map and freelist of matching the flattened queue. The trades are by the rules: none beyond the limit, and nothing within it left over. |
| `Engine.MatchingEngine.MatchSell` | src/matching_engine.cpp:186-246 | The loops over bids terminate with the book, event, id map and freelist of matching the flattened queue. The trades are by the rules: none beyond the limit, and nothing within it left over. |
| `Engine.MatchingEngine.InsertOrder` | src/matching_engine.cpp:248-260 | In range, the order is appended, marked and mapped, even over another order with its id; out of range it is only marked cancelled and still awaits its map entry. |
| `Engine.MatchingEngine.Place` | src/matching_engine.cpp:107-108 | The order is mapped whether or not it found a level and whether or not its id was in use, and the structures agree; an order without a level counts as lost. |
| `Engine.MatchingEngine.RestOrder` | src/matching_engine.cpp:92-110 | The order rests exactly if a slot is free, and the engine stays consistent for every id and price. |
| `Engine.MatchingEngine.Rest` | src/matching_engine.cpp:92-110 | Resting happens exactly while resting and lost orders are fewer than the usable slots; the engine stays valid for every id; an order without a level joins the lost ones instead of the queue. |
| `Engine.MatchingEngine.MapHoldsRestingIds` | src/matching_engine.cpp:275-282 | Every mapped id names a resting or lost order or is that of a cancelled lost one; while ids are distinct every resting order is mapped, and while no order is lost every key rests. |
| `Engine.MatchingEngine.NamesLast` | src/matching_engine.cpp:275-281 | The order that an id is mapped to is the one that the specification cancels: the last with that id at its price, on its level and in the queue. |
| `Engine.MatchingEngine.MapFillsPool` | src/matching_engine.cpp:93-96 | Mapped orders and free slots together never exceed the usable slots, and fill them exactly if every live order is the one its id names. |
| `Engine.MatchingEngine.Conclude` | src/matching_engine.cpp:66-122 | After matching: report, book, lost orders, id map and freelist are those of the specification for every order type, outcome and id. |
| `Engine.MatchingEngine.ProcessOrder` | src/matching_engine.cpp:44-122 | For every order on every valid engine, with ids reused and orders lost before: trades and reports, book, lost orders, id map and freelist are those of the specification, and the engine stays valid. The answer is by `OrderRules`, which fixes every field of it. |
| `Engine.MatchingEngine.TakeOut` | src/matching_engine.cpp:262-270 | Taking out the order that an id is mapped to is the cancel of the specification and gives back exactly that order and its map entry. |
| `Engine.MatchingEngine.FreeStray` | src/matching_engine.cpp:262-265 | The cancel of an order without a level returns its slot to the freelist and leaves its map entry; the engine stays valid and the lost orders lose exactly that one. |
| `Engine.MatchingEngine.CancelOrder` | src/matching_engine.cpp:272-295 | An unknown id does nothing, the order that came to rest last under a reused id is taken out and reported, and a lost order is reported with what it had left, its slot freed while its map entry stays; the engine stays valid in every case. The answer is by `CancelRules`: the one report has the id, side, price, filled and remaining quantity of that order. |
| `Engine.MatchingEngine.RestThenCancel` | src/matching_engine.cpp:92-122 | Submitting a non-crossing Limit order and cancelling it restores every level, both bitsets and the freelist, and the id map but for that id, whether or not the id was in use. |
| `Engine.MatchingEngine.BestBid` | include/matching/matching_engine.h:28-28 | The highest bid price in the book, or 0 without bids. |
| `Engine.MatchingEngine.BestAsk` | include/matching/matching_engine.h:29-29 | The lowest ask price in the book, or 0 without asks. |
| `Engine.MatchingEngine.RestingQuantity` | src/matching_engine.cpp:25-35 | What the whole side has left at this price, 0 for a price without a level. |
| `Engine.MatchingEngine.VerifyMap` | src/matching_engine.cpp:307-312 | True exactly if every mapped order carries its own id and rests, in any state. |
| `Engine.MatchingEngine.VerifyInvariants` | src/matching_engine.cpp:297-315 | True exactly if the best marked prices do not cross, every bit agrees with its level and the map passes, in states that need not be valid. |
| `Engine.MatchingEngine.ValidPasses` | src/matching_engine.cpp:297-315 | In a valid state the engine's own check succeeds exactly if every mapped id names an order on a level. |
| `RefLevels.PushBackInserts` | src/reference_engine.cpp:290-298 | Appending to the list of a price, making the list in its place if needed, inserts into the live priority queue although tombstones lie in between. |
| `RefLevels.DropKeeps` | src/reference_engine.cpp:177-181 | Erasing the first list element removes the front of the live queue if it is live and changes nothing if it is a tombstone. |
| `RefLevels.CancelKeeps` | src/reference_engine.cpp:300-320 | Overwriting a status through the map is a cancel of the live book, that of the newest order of the id, and everything stays consistent with the order still in its list. |
| `RefLevels.NamesLast` | src/reference_engine.cpp:303-307 | The cell that an id is mapped to is the last live order with that id at its price, tombstones and older orders of the id notwithstanding. |
| `RefLevels.RestKeeps` | src/reference_engine.cpp:290-298 | Resting keeps the lists, the map and the live book consistent, even under an id in use; tombstone-only levels do not cross either. |
| `RefLevels.BestKey` | src/reference_engine.cpp:7-15 | No live order is better than the first level, and the best one is at its price exactly if the level holds a live order. |
| `RefLevels.BestRefuses` | src/reference_engine.cpp:165-172 | If the first level is refused, so are all levels and every live order. |
| `RefLevels.MapHoldsRestingIds` | src/reference_engine.cpp:303-304 | The map's keys are ids of live orders, and exactly those while ids are distinct. |
| `Reference.ReferenceEngine.constructor` | include/matching/reference_engine.h:15-15 | A new reference engine is valid and empty. |
| `Reference.ReferenceEngine.Purge` | src/reference_engine.cpp:177-181 | Purging a tombstone leaves the live book and the id map as they were. |
| `Reference.ReferenceEngine.FillFront` | src/reference_engine.cpp:183-211 | One fill of a live list element is one fill of the same specification that the fast engine meets. The trade has the resting price and the incoming stamp, and a filled order is reported with its side, price and whole quantity. |
| `Reference.ReferenceEngine.SweepLevel` | src/reference_engine.cpp:174-212 | The walk over a list with tombstones terminates, touches no other level and leaves the outcome of the whole match unchanged. |
| `Reference.ReferenceEngine.ConsumeLevel` | src/reference_engine.cpp:172-220 | A level is erased exactly if the walk emptied it; otherwise the order is filled. |
| `Reference.ReferenceEngine.MatchBuy` | src/reference_engine.cpp:157-222 | The loops over asks terminate with the book and event of matching the live queue; if something is left, no remaining ask level is acceptable, not even one of tombstones. The trades are by the rules: none beyond the limit, and nothing within it left over. |
| `Reference.ReferenceEngine.MatchSell` | src/reference_engine.cpp:224-288 | The loops over bids terminate with the book and event of matching the live queue; if something is left, no remaining bid level is acceptable, not even one of tombstones. The trades are by the rules: none beyond the limit, and nothing within it left over. |
| `Reference.ReferenceEngine.InsertOrder` | src/reference_engine.cpp:290-298 | The live book gains the order at its place and the id is mapped to it; the engine stays valid for every id. |
| `Reference.ReferenceEngine.ProcessOrder` | src/reference_engine.cpp:48-155 | Trades, reports, live book and id map are those of the specification for every order, whatever its id, and the engine stays valid; no level appears at any price but that of a resting order. The answer is by `OrderRules`, which fixes every field of it. |
| `Reference.ReferenceEngine.CancelOrder` | src/reference_engine.cpp:300-320 | The live book loses exactly the order that the id is mapped to, the newest of a reused id, while the lists keep all their elements; the engine stays valid. The answer is by `CancelRules`: the one report has the id, side, price, filled and remaining quantity of that order. |
| `Reference.ReferenceEngine.BestBid` | src/reference_engine.cpp:7-10 | Never below the best live bid, and equal to it exactly if the first level holds a live order (or nothing is live and the price reads 0). |
| `Reference.ReferenceEngine.BestAsk` | src/reference_engine.cpp:12-15 | Never above the best live ask, and equal to it exactly if the first level holds a live order (or nothing is live and the price reads 0). |
| `Reference.ReferenceEngine.RestingQuantity` | src/reference_engine.cpp:24-46 | What the live orders of the side have left at this price. |
| `Reference.ReferenceEngine.VerifyInvariants` | src/reference_engine.cpp:322-343 | True exactly if the first levels do not cross, asks strictly ascend from above 0 and bids strictly descend from below the largest price, in any state. |
| `Reference.ReferenceEngine.ValidPasses` | src/reference_engine.cpp:322-343 | In a valid state the check succeeds exactly if all ask levels have positive prices and no bid level is at the largest price. |
| `Runs.StepsAgree` | src/matching_engine.cpp:37-42 | On any book with any ids: event and book are equal exactly if the step is no well-formed Limit order that is refused for its price, has no room or is reported Resting without a level, and no cancel of a lost order; the events alone exactly if it is none of the first two, unless a lost order is cancelled. |
| `Runs.MisfiledIsMissing` | src/matching_engine.cpp:251-255 | An order reported Resting without a level gives equal events and leaves the fast book one order short. |
| `Runs.RunsAgreeIff` | tests/test_differential.cpp:89-164 | Over every run, ids reused or not, the engines have equal events and equal books and id maps at every step if and only if no step diverges. |
| `Runs.EventsAgreeIff` | tests/test_differential.cpp:89-164 | While every order reported Resting has a level, equal events alone are equivalent to no step diverging, ids reused or not. |
| `Runs.FittingOpsAgree` | tests/test_differential.cpp:89-164 | Positive Limit prices below the number of levels, and at most as many Limit orders as there is room for, imply agreement. |
| `Runs.NonPositiveLimitDiverges` | src/reference_engine.cpp:51-51 | A sell limited at 0 is refused by the fast engine and rests in the reference. |
| `Runs.FullPoolDiverges` | src/matching_engine.cpp:93-96 | With one slot, the second of two buys is cancelled by the fast engine and rests in the reference. |
| `Runs.OutOfRangeDiverges` | src/matching_engine.cpp:251-255 | A buy priced one beyond the ladder and a market sell: both engines report the buy Resting, but only the reference trades. |
| `Runs.ReusedIdStrands` | src/matching_engine.cpp:107-108 | Two bids under one id and two cancels, in either engine: the first cancel takes the later bid, the second finds nothing, and the earlier bid stays. |
| `Runs.ReusedIdDiverges` | src/matching_engine.cpp:93-96 | With two slots, a stranded order of a reused id makes the engines diverge at a later bid. |
| `Runs.RunKeepsInv` | src/matching_engine.cpp:297-301 | In every reachable state of either engine, whatever the ids: both sides are sound and sorted and every bid is below every ask. |
| `Runs.RunKeepsUnique` | src/matching_engine.cpp:107-108 | As long as no order comes to rest under the id of a resting one, in every state ids are distinct and each cancels the order that has it. |
| `Runs.RunKeepsNamed` | src/matching_engine.cpp:307-312 | In every reachable state of either engine, ids reused or not: each mapped id names a resting order, a lost one, or is that of a cancelled lost one. |
| `Runs.CancelAnswers` | src/matching_engine.cpp:272-295 | So a cancel reports exactly one order, with that id, if the id is mapped, and nothing otherwise. |
| `Runs.FreshIdsNeverReuse` | tests/test_differential.cpp:106-140 | Submitting no id twice is enough for no order to take the id of a resting one. |
| `Runs.StepKeepsShelved` | src/matching_engine.cpp:307-312 | The check of the id map goes on passing exactly until an order is reported Resting without a level. |
| `Runs.NoneMisfiledFits` | src/matching_engine.cpp:262-265 | A run in which no order is reported Resting without a level never cancels the id of a lost order twice. |
| `Runs.ReferenceFits` | src/reference_engine.cpp:300-320 | Every run of the reference engine meets that requirement. |
| `Runs.PricesFitRun` | tests/test_differential.cpp:106-140 | Limit prices with a level, which a caller can see to, are enough for it, and no order is lost. |
| `Differential.FastApply` | src/matching_engine.cpp:44-122 | One operation on the fast engine is one step of the pure run, with reused ids and lost orders, and the engine stays valid. |
| `Differential.RefApply` | src/reference_engine.cpp:48-155 | One operation on the reference engine is one step of the pure run, the engine stays valid, and its price checks keep passing for prices a ladder can hold. |
| `Differential.CheckBoth` | tests/test_differential.cpp:149-152 | With both engines valid, both checks succeed exactly if every mapped id names an order on a level and the reference's prices pass. |
| `Differential.StepBoth` | tests/test_differential.cpp:144-145 | Both engines do their pure steps side by side and stay valid. |
| `Differential.AlongEnds` | tests/test_differential.cpp:147-152 | Equal events and successful checks at every step mean that no step diverged, and the other way round. |
| `Differential.RunBoth` | tests/test_differential.cpp:89-164 | Feeding operations to both engines, ids reused or not, comparing events and calling both checks after every step: the events are those of the pure runs, and everything succeeds exactly if no step diverges. |
| `Differential.CompareTops` | src/reference_engine.cpp:7-46 | With agreeing books, resting quantities agree at every price, and the reference's best prices are at least as good, and equal exactly if its first levels hold live orders. |
| `Differential.FastQuoteAfterCancel` | src/matching_engine.cpp:272-295 | After a bid at 100 is cancelled the fast engine quotes no bid. |
| `Differential.RefQuoteAfterCancel` | src/reference_engine.cpp:300-320 | After a bid at 100 is cancelled the reference still quotes 100, with nothing resting there. |
| `Differential.OutOfRangeOrder` | src/matching_engine.cpp:251-265 | On the fast engine itself: a buy beyond the ladder is reported Resting, fails the engine's check, trades with nobody, and its cancel reports the whole quantity. |
| `Conservation.MatchConserves` | src/matching_engine.cpp:145-158 | For every id: what it trades leaves the queue or the incoming order, and nothing is cancelled on the way. |
| `Conservation.StepAccounts` | src/matching_engine.cpp:66-119 | For every id and every step of either engine: submitted plus what resting and lost orders had left before is traded plus reported as cancelled remainder plus what they have left after. |
| `Conservation.StepConserves` | src/matching_engine.cpp:251-255 | The balance without the lost orders holds for an id in a step exactly if the step neither reports an order with it Resting without a level nor cancels such an order. |
| `Conservation.OutOfRangeLoses` | src/matching_engine.cpp:251-255 | A concrete buy of 5 beyond the ladder is neither traded nor resting nor refunded. |
| `Conservation.RunAccounts` | src/matching_engine.cpp:44-295 | The full balance, lost orders and their cancels included, for every id over whole runs of either engine. |
| `Conservation.RunConserves` | src/matching_engine.cpp:44-295 | Over whole runs all that was submitted under an id was traded, was refunded or rests, exactly if no order with that id is lost in the end. |
| `Conservation.FittingOpsConserve` | src/matching_engine.cpp:44-295 | A caller who only uses positive Limit prices with a level gets the full balance without lost orders for every id. |
| `Ledger.MatchKeepsLedger` | src/matching_engine.cpp:157-175 | Through matching, every resting order has traded what it no longer has, and every Filled report carries all its order ever traded. |
| `Ledger.RunKeepsLedger` | src/matching_engine.cpp:44-295 | The ledger of trades, resting orders and final reports balances after every run of either engine with unique ids, lost orders included. |
| `Ledger.ReportsAreFinal` | src/matching_engine.cpp:112-119 | Of every run of either engine from the empty book with unique ids: each Filled or Cancelled report carries exactly the sum of all trades of its order, before and after, and the order no longer rests; each resting or lost order has traded exactly what it no longer has. |
| `Lifecycle.MatchAnswers` | src/matching_engine.cpp:160-175 | Matching reports final exactly the orders it takes out of the queue. |
| `Lifecycle.StepAnswers` | src/matching_engine.cpp:44-295 | For every id and every step of either engine: submissions plus resting and lost orders before are final reports plus resting and lost orders after. |
| `Lifecycle.RunAnswers` | src/matching_engine.cpp:44-295 | The same balance for every id over whole runs, reused ids and cancels of lost orders included. |
| `Lifecycle.OutOfRangeUnanswered` | src/matching_engine.cpp:251-255 | A concrete buy beyond the ladder neither rests nor gets a final report. |
| `Lifecycle.AnsweredExactlyOnce` | src/matching_engine.cpp:44-295 | Of every run of either engine from the empty book with unique ids: each submitted id rests once or has exactly one Filled or Cancelled report, exactly if its order is not lost in the end, and otherwise neither; no other id has any. |
| `Lifecycle.FreshOpsAnswered` | src/matching_engine.cpp:44-295 | A caller who submits no id twice and only uses positive Limit prices with a level gets exactly one answer for every submission. |
| `Mirror.MirrorMatch` | src/matching_engine.cpp:186-246 | Selling is buying in the mirror: the outcome of the reflected match is the reflected outcome. |
| `Mirror.MirrorInsert` | src/matching_engine.cpp:248-260 | Resting in the mirror puts the order at the reflected place. |
| `Mirror.MirrorRefProcess` | src/reference_engine.cpp:48-155 | The reference engine commutes with every reflection, on every book and order. |
| `Mirror.MirrorProcess` | src/matching_engine.cpp:37-122 | An engine commutes with a reflection exactly if it accepts both the order and its image or neither and, should they rest, has a level for both or neither; or if the accepted one neither trades nor finds a slot. |
| `Mirror.MirrorCancel` | src/matching_engine.cpp:272-295 | Cancelling commutes with every reflection that maps the price of the order to one with a level exactly if it has one. |
| `Mirror.MirrorRunOf` | src/matching_engine.cpp:124-246 | Every run of operations that an engine treats like their images, reflected, is the run of the reflected operations, with reflected trades, reports, book, id map and lost orders, ids reused or not. |
| `Mirror.InRangeIsReflectable` | src/matching_engine.cpp:37-42 | Limit prices strictly between 0 and the number of levels give an order and its image the same verdict and the same shelf. |
| `Mirror.ReflectedQueue` | include/matching/price_ladder.h:69-72 | A reflected ladder stands for the reflected queue. |
| `Mirror.ReflectedBest` | include/matching/bitset.h:38-55 | The highest occupied level of a ladder is the image of the lowest occupied level of its reflection, and the other way round. |
| `Spsc.SlotOfWord` | include/matching/spsc_queue.h:67-67 | The slot of a counter does not depend on how often its 64-bit word has wrapped. |
| `Spsc.NoSlotRace` | include/matching/spsc_queue.h:25-37 | In every safe state the slot about to be written holds no unread item and is not the slot about to be read. |
| `Spsc.StepKeepsSafe` | include/matching/spsc_queue.h:20-53 | Every atomic step of producer, consumer and observer keeps the queue safe: head <= tail <= head + capacity, popped is a prefix of pushed, and the unread items are in their slots. |
| `Spsc.RunKeepsSafe` | include/matching/spsc_queue.h:20-63 | Every interleaving keeps the queue safe, however long. |
| `Spsc.QueueIsFifo` | include/matching/spsc_queue.h:20-53 | In every interleaving the delivered items are a prefix of the accepted ones, at most a capacity behind, with the items in between in the buffer. |
| `Spsc.HeadNeverWraps` | include/matching/spsc_queue.h:32-34 | In every interleaving, however long, fewer than 2^64 items are delivered: the head never wraps, and the tail at most once. |
| `Spsc.RefusedIfFull` | include/matching/spsc_queue.h:21-23 | A push is refused exactly if the ring is full when the producer loads the head. |
| `Spsc.EmptinessTest` | include/matching/spsc_queue.h:32-34 | Comparing the words finds an item exactly if one is unread and no wrap of the counters lies between head and tail. |
| `Spsc.NothingIfEmpty` | include/matching/spsc_queue.h:32-34 | A pop finds nothing exactly if the queue is empty when the consumer loads the tail, or the unread items straddle a wrap. |
| `Spsc.SizeIsLowerBound` | include/matching/spsc_queue.h:60-64 | In every reachable state the approximate size is the number of pushes at the load of the tail less the number of pops at the load of the head, or 0 if that is negative or the tail had wrapped. It is never more than the size; if nothing was pushed in between it is exact, exactly until the unread items straddle a wrap. |
| `Spsc.EmptyIsTrue` | include/matching/spsc_queue.h:55-58 | With the head loaded first: exactly when a queue is reported empty, in every reachable state; a queue reported empty is empty exactly if the unread items straddle no wrap. |
| `Spsc.EmptyTailFirstMeans` | include/matching/spsc_queue.h:55-58 | With the tail loaded first, a queue is reported empty exactly if all that was pushed before that load has been popped or the tail had wrapped by then, in every reachable state. |
| `Spsc.EmptyTailFirstMisses` | include/matching/spsc_queue.h:55-58 | A run in which, with the tail loaded first, a queue holding one item is reported empty. |
| `Spsc.StraddlingStalls` | include/matching/spsc_queue.h:32-34 | Once the unread items straddle a wrap and the consumer is idle, nothing is ever delivered again. |
| `Spsc.StallsAtWrap` | include/matching/spsc_queue.h:32-34 | There is a run of 2^64 pushes, one unread, after which nothing is ever delivered again. |
| `Spsc.UndisturbedPush` | include/matching/spsc_queue.h:20-28 | The four steps of a push without interference append the item or, if the ring is full, change nothing. |
| `Spsc.UndisturbedPop` | include/matching/spsc_queue.h:31-39 | The four steps of a pop without interference take the oldest item. |
| `Spsc.UndisturbedPeekCommit` | include/matching/spsc_queue.h:42-53 | Peeking and then committing without interference comes to the same as popping. |
| `Spsc.SpscQueue.constructor` | include/matching/spsc_queue.h:17-17 | A new queue is safe and empty. |
| `Spsc.SpscQueue.TryPush` | include/matching/spsc_queue.h:20-28 | Appends the item exactly if fewer than capacity items are unread, and is an undisturbed run of the push steps. |
| `Spsc.SpscQueue.TryPop` | include/matching/spsc_queue.h:31-39 | Takes the oldest item exactly if there is one and no wrap hides it, and is an undisturbed run of the pop steps. |
| `Spsc.SpscQueue.Peek` | include/matching/spsc_queue.h:42-47 | Shows the oldest item exactly if there is one and no wrap hides it. |
| `Spsc.SpscQueue.PopCommit` | include/matching/spsc_queue.h:50-53 | Removes the oldest item, whether or not a wrap hides it; on an empty queue it moves the head past the tail, and exactly then the queue is no longer valid. |
| `Gateway.MatchKeepsTime` | src/matching_engine.cpp:144-181 | Fills, partial or not, never reorder a level. |
| `Gateway.InsertKeepsTime` | src/matching_engine.cpp:257-257 | A later order goes behind all orders at its price. |
| `Gateway.CancelKeepsTime` | src/matching_engine.cpp:267-267 | A cancel never reorders a level. |
| `Gateway.RunKeepsTime` | src/matching_engine.cpp:44-295 | Over every run of either engine with increasing stamps, the orders at each price rest in strictly increasing stamp order. |
| `Gateway.MoveKeepsStamps` | include/matching/order_gateway.h:25-29 | After every atomic step each stamp handed out is accepted, refused or in flight, and accepted stamps strictly increase. |
| `Gateway.GatewayIsOrdered` | include/matching/order_gateway.h:25-29 | In every interleaving the delivered stamps strictly increase, and a missing stamp belongs to a refused push or the one under way. |
| `Gateway.OrderGateway.constructor` | include/matching/order_gateway.h:15-18 | The first stamp is 1. |
| `Gateway.OrderGateway.Submit` | include/matching/order_gateway.h:25-29 | Pushes exactly if there is room, and what it pushes has the id, side, type, price and quantity of the order and the next number as its stamp; the number is used up even if the queue is full, and pushed stamps strictly increase. |
| `Gateway.LevelsKeepStampOrder` | include/matching/order_gateway.h:25-29 | From gateway through queue to book, in every interleaving and with any cancels: every price level holds its orders in strictly increasing stamp order. |
| `Gateway.MoveKeepsPassedOn` | include/matching/order_gateway.h:25-29 | After every atomic step each accepted or refused order, and the one in flight, is the submitted order whose call number it carries as its stamp, with all other fields unchanged. |
| `Gateway.DeliveredAsSubmitted` | include/matching/order_gateway.h:25-29 | In every interleaving the delivered orders are submitted orders with id, side, type, price and quantity unchanged, in the order of submission. |
| `Gateway.RestingAsSubmitted` | include/matching/order_gateway.h:25-29 | From gateway through queue to book, in every interleaving and with any cancels: each order of the book, resting or lost, has the id, side, type, price and quantity of the submission whose number it carries. |

## Left out

- Engine.MatchingEngine.CancelOrder: does not say what cancelling the id of a lost order a second time does. By then its slot is free, or holds another order, and the code would free it twice or cancel that other order. Every other call is described, before and after the first cancel.
- Runs.RunFits: the laws about runs that require it leave out exactly the runs with such a second cancel; `Runs.NoneMisfiledFits`, `ReferenceFits` and `PricesFitRun` say which runs have none.
- Engine.MatchingEngine.constructor: requires a positive pool capacity; with none the code writes outside the pool.
- Engine.MatchingEngine.ProcessOrder: says which order objects leave level, map and pool and where the freelist stands after the call; the order objects on the levels are not part of the pure book.
- Runs.EventsAgreeIff: says nothing of the events of a run in which an order is lost; they may agree for a while, until a later order would have met the lost one.
- MatchingLaws.MatchIsAdditive: requires distinct ids in the queue; trades with two neighbours under one id cannot be told apart from one trade split at the boundary.
- Ledger.ReportsAreFinal: requires distinct ids, because reports and trades name orders by id only; so does `Lifecycle.AnsweredExactlyOnce`.
- Ladder.PriceLadder.VerifyInvariants: leaves out the second loop of the check, which walks the lists and checks nothing.
- Ladder.PriceLadder.constructor: base price 0 and tick size 1, the only values the engine sets; general ones are not modelled.
- Spsc.StepKeepsSafe: steps are sequentially consistent with stale local copies; the hardware memory model is not modelled. Each counter has one writer, only grows, and is published with release and read with acquire.
- Spsc.SlotOfWord: the slot `t & mask` is written `t % capacity`, its value for the power-of-two capacities that the code allows.
- Spsc.SpscQueue.Peek: returns the item, not a pointer into the buffer; holding the pointer while the producer runs is the `ItemSeen` state of the step machine.
- Gateway.OrderGateway.Submit: sequence numbers do not wrap; `submit_direct` and the messages of `validate` are not modelled.
- Conservation.StepAccounts: quantities and prices are mathematical integers; overflow of 64-bit sums is not modelled.
- Differential.RunBoth: compares whole events; the repository compares the logical fields of trades and reports.
- Reference.ReferenceEngine.MatchBuy: the sorted maps are sequences of levels in map order and the lists sequences of cells, so the walk goes by position; iterator validity is not modelled.
- The hash maps from ids to orders are Dafny maps.
- Spreads, best-price bookkeeping of market data, callbacks and event recording: no property beyond those above.
- Benchmarks, latency histograms, build scripts and cache-line layout.
