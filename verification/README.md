# Verified model of the limit order book

This project models a single-writer limit order book, the matching engine on top of it, the lock-free
queue and the two threads that feed it, the ITCH frame decoder and reader, and the latency histogram, and
proves what each of them promises for every input, every run and every interleaving.

Code that changes state is modelled by classes and loops in the same shape: trie nodes with 256-bit masks
and nullable children, order nodes with `previous`, `next` and `level` references, cached level totals, a
fill buffer, slots, counter arrays. Each class is proved against a specification on values, and the
properties of whole runs are lemmas about that specification. What the specification itself computes is
proved once more from outside: `BookMeaning`, `BookQueries`, `EngineMeaning`, `SubmissionMeaning`,
`ItchLayout` and `Histograms.IsNearestRank` say, in terms of live orders, queues, named counters, single
bytes and percentages alone, what every operation, event, submission, frame and percentile is to answer.

| files | what they hold |
|---|---|
| `Bits`, `Common` | machine words as numbers with bitwise operators; the scalar types |
| `Masks`, `PriceIndex` | the occupancy masks and the four-tier trie, as a set of prices |
| `BookQueries`, `BookMeaning` | what each query answers and each operation does, said of the live orders and queues alone |
| `BookModel`, `BookLaws` | the reference book (one order map, one id queue per side and price) and what its operations keep |
| `OrderBook`, `BookRuns` | the pointer-based book and its refinement of the reference book, over whole runs and with an allocator that may fail anywhere |
| `TimePriority` | time priority over whole runs, and when a replacement loses it |
| `Sweep` | the greedy price-time sweep, stated on the flattened side of a book, and what that side is |
| `EngineModel`, `EngineLaws`, `EngineRuns` | the engine as a function on values, and its run properties |
| `EngineMeaning`, `SubmissionMeaning` | what every event and submission does and reports, and the counters of whole runs, said of orders, caps and counters alone |
| `MatchingEngine` | the engine over pointer-based books, with an allocator that may fail anywhere, refining `EngineModel` |
| `RingProtocol`, `RingCalls`, `SpscRing` | the queue as micro-steps of two threads with stale but coherent loads, what a call means while the other thread goes on, and its code over an array |
| `ReplayPipeline` | the producer and consumer threads of the replay program: safety and progress |
| `ItchLayout` | which bytes of a message each field is, and what the decoder answers to every string of bytes |
| `Itch`, `ItchCodec`, `FrameReader` | events and decoder, the encoder and the round trips, and reading frames from a source that cuts its bytes up at will |
| `Replay` | the replay program from end to end: input bytes, two threads and engine |
| `Histogram` | bins, recording, and the error of a reported percentile |

Where code and documentation differ: docs/architecture.md:44 says that a replacement always loses time
priority, but `replace` with an unchanged id delegates to `modify` (src/book/order_book.cpp:374-376), which
leaves a same-price reduction in place. `TimePriority.ReplaceLosesPriority` says exactly when priority is
lost, and `TimePriority.ReplaceMayKeepPriority` gives a replacement that keeps it.

Where the code does less than it should: `ensure_book` (src/engine/matching_engine.cpp:186-192) puts an entry
into the map before it allocates the book. If that allocation fails the entry stays, holding a null pointer;
`find_book` then answers as if there were no book, and the next order within the caps for that locate
dereferences the pointer. `EngineRuns.CrashesExactly` says exactly when that happens, `EngineRuns.FailedBookIsDereferenced`
gives a run where it does, and `EngineRuns.NoFailureIsSound` says that without a failed allocation it never does.
An exception inside `apply` also leaves `messages` ahead of the outcome counters, by exactly one for each
(`EngineRuns.CountersHold`).

Loads of another thread's index follow read coherence, section 6.9.2.1 of ISO/IEC 14882:2020: a load may
return any value published so far, but none older than what the thread already knows; reading
`producer_done` as true makes every earlier publication known.

## Model

| member | source | states |
|---|---|---|
| Masks.Set | src/book/order_book.cpp:22-24 | the byte is marked afterwards and every other byte is marked as before |
| Masks.Clear | src/book/order_book.cpp:26-28 | the byte is unmarked afterwards and every other byte is marked as before |
| Masks.AnyMeans | src/book/order_book.cpp:30-32 | `any` holds exactly when some byte is marked |
| Masks.Lowest | src/book/order_book.cpp:34-42 | the least marked byte, 0 when there is none |
| Masks.Highest | src/book/order_book.cpp:44-52 | the greatest marked byte, 0 when there is none |
| PriceTrie.BytesAre | src/book/order_book.cpp:54-56 | shifting and masking gives the four bytes of the price |
| PriceTrie.Compose | src/book/order_book.cpp:161-163 | or-ing the shifted bytes gives the price with those bytes |
| PriceTrie.PriceIndex.Add | src/book/order_book.cpp:64-89 | the set of prices gains the price; if an allocation fails it is unchanged and the index stays valid |
| PriceTrie.PriceIndex.Remove | src/book/order_book.cpp:91-119 | removing a member takes exactly it out of the set and leaves no empty node on its path |
| PriceTrie.PriceIndex.OnPath | src/book/order_book.cpp:97-99 | every child that removing a member follows without a check exists |
| PriceTrie.PriceIndex.Reset | src/book/order_book.cpp:129-134 | the set becomes empty |
| PriceTrie.PriceIndex.Find | src/book/order_book.cpp:149-164 | the numeric minimum or maximum of the set, none exactly when it is empty; every child it follows exists |
| OrderBooks.PriceLevel.Append | src/book/order_book.cpp:215-227 | the list stays a proper doubly linked chain and gains the order at its tail; total and count follow |
| OrderBooks.PriceLevel.Detach | src/book/order_book.cpp:229-244 | the list stays a proper chain and loses exactly the order, wherever it stands |
| OrderBooks.OrderBook.GetOrCreateLevel | src/book/order_book.cpp:202-213 | the level of the price; existing levels stay, and a failed allocation leaves the shown book unchanged |
| OrderBooks.OrderBook.EraseNode | src/book/order_book.cpp:246-259 | the shown book becomes the reference book without the order; its level is kept exactly while it has orders |
| OrderBooks.OrderBook.Add | src/book/order_book.cpp:271-300 | answer and new book are those of the reference book; if any allocation fails the shown book is unchanged and valid |
| OrderBooks.OrderBook.Cancel | src/book/order_book.cpp:302-317 | answer and new book are those of the reference book |
| OrderBooks.OrderBook.Erase | src/book/order_book.cpp:319-326 | answer and new book are those of the reference book |
| OrderBooks.OrderBook.Execute | src/book/order_book.cpp:328-330 | answer and new book are those of the reference book |
| OrderBooks.OrderBook.Modify | src/book/order_book.cpp:332-366 | answer and new book are those of the reference book; if any allocation fails the shown book is unchanged and valid |
| OrderBooks.OrderBook.Replace | src/book/order_book.cpp:368-389 | answer and new book are those of the reference book; if any allocation fails the old order is preserved |
| OrderBooks.OrderBook.Contains | src/book/order_book.cpp:391-393 | whether the shown book has the order |
| OrderBooks.OrderBook.OrderOf | src/book/order_book.cpp:395-402 | none when the id is not live; otherwise its id, side, price and quantity |
| OrderBooks.OrderBook.OrderCount | src/book/order_book.cpp:404-406 | the number of orders in the shown book |
| OrderBooks.OrderBook.Best | src/book/order_book.cpp:408-414 | the highest price of a live bid, or the lowest of a live ask; none exactly when the side is empty |
| OrderBooks.OrderBook.BestBidDepth | src/book/order_book.cpp:416-419 | none exactly when no bid is live; otherwise the highest bid price, the number of orders there and the sum of their quantities |
| OrderBooks.OrderBook.BestAskDepth | src/book/order_book.cpp:421-424 | none exactly when no ask is live; otherwise the lowest ask price, the number of orders there and the sum of their quantities |
| OrderBooks.OrderBook.DepthAt | src/book/order_book.cpp:426-434 | none exactly when no order of that side and price is live; otherwise the price, the number of those orders and the 64-bit sum of their quantities |
| OrderBooks.OrderBook.FrontOrder | src/book/order_book.cpp:436-445 | none exactly when no order of that side and price is live; otherwise the one at the head of the queue, with its fields |
| OrderBooks.OrderBook.Clear | src/book/order_book.cpp:447-453 | the shown book is empty |
| BookLaws.ApplyValid | tests/order_book_model_test.cpp:33-104 | every operation keeps every live order in exactly one queue, that of its side and price; a refused one changes nothing |
| BookLaws.AddQueues | tests/order_book_model_test.cpp:33-41 | adding appends to one queue and leaves the others |
| BookLaws.EraseQueues | tests/order_book_model_test.cpp:59-67 | erasing takes the order out of its own queue, keeps the order of the rest, and leaves the other queues |
| BookLaws.RequeueIsEraseAdd | tests/order_book_model_test.cpp:80-85 | requeueing an order is erasing it and adding it again |
| BookQueries.DepthMeans | src/book/order_book.cpp:426-434 | the depth of the reference book is none without live orders at that side and price, and otherwise their price, number and summed quantity |
| BookQueries.BestMeans | src/book/order_book.cpp:408-414 | a best price is the highest of the live bids or the lowest of the live asks, and none without any |
| BookQueries.FrontMeans | src/book/order_book.cpp:436-445 | the front of a price is the live order at the head of its queue |
| BookMeaning.AddMeans | src/book/order_book.cpp:271-300 | accepted exactly with a quantity and a free id; the order map gains that order, its queue gains it at the back, all else stays |
| BookMeaning.ReduceMeans | src/book/order_book.cpp:302-330 | accepted exactly for a live order and 1 up to its whole quantity; the whole removes it from map and queue, less leaves it in its place with the difference |
| BookMeaning.EraseMeans | src/book/order_book.cpp:319-326 | accepted exactly for a live order, which leaves map and queue; all else stays |
| BookMeaning.ModifyMeans | src/book/order_book.cpp:332-366 | accepted exactly for a live order and a quantity; it keeps its place if the price stays and it does not grow, and otherwise joins the queue of its new price at the back |
| BookMeaning.ReplaceMeans | src/book/order_book.cpp:368-389 | accepted exactly for a live order, a quantity and a new id that is free or the old one; the old order leaves and the new one of its side joins at the back |
| BookMeaning.OperationMeans | tests/order_book_model_test.cpp:33-104 | so for every operation on every valid book |
| BookRuns.Perform | src/book/order_book.cpp:271-389 | one operation of any kind, with an allocator that may fail, does and answers what the reference book does, which is what `BookMeaning` says of it, or throws and does nothing |
| BookRuns.RunModelSequence | tests/order_book_model_test.cpp:29-30 | for every sequence of operations, each with an allocator that may run out anywhere in it, results and final book are those of the reference book, also after operations that failed |
| BookRuns.EveryOrderInItsList | src/book/order_book.cpp:179-197 | each live order is at exactly one place of the list of its own level and in no other list; its neighbours point back at it |
| BookRuns.LevelTotals | src/book/order_book.cpp:192-194 | `order_count` is the length of the chain, `quantity` its exact sum for at most 2^32 orders, and the price is in the index exactly when there are orders |
| TimePriority.LineChange | src/book/order_book.cpp:302-389 | every operation changes every queue only by taking one order out and letting one join at the back |
| TimePriority.FreshStampMeans | src/book/order_book.cpp:341-364 | an order that stays gets a fresh stamp exactly when its price changes or its quantity grows; a new id always does |
| TimePriority.RunKeepsTimePriority | src/book/order_book.cpp:215-227 | after every run each queue is strictly increasing in its stamps |
| TimePriority.FromTheStart | src/book/order_book.cpp:215-227 | in particular from an empty book |
| TimePriority.FrontIsOldest | src/book/order_book.cpp:436-445 | the front order of a price has the oldest stamp of all live orders there |
| TimePriority.FillsFollowStamps | src/engine/matching_engine.cpp:217-253 | of two fills of one sweep at the same price, the earlier goes to the order with the older stamp |
| TimePriority.FillsFollowStampsInRuns | src/engine/matching_engine.cpp:217-253 | so after every run from an empty book |
| TimePriority.ReplaceLosesPriority | src/book/order_book.cpp:368-389 | a replacement puts the new order last exactly when the id or price changes or the quantity grows, or the order was last already |
| TimePriority.ReplaceMayKeepPriority | src/book/order_book.cpp:374-376 | a replacement under the same id that keeps its place ahead of another order |
| Sweep.FlattenIsTheSide | src/engine/matching_engine.cpp:217-229 | the flattened side lists all orders of the side and no others |
| Sweep.FlattenDistinct | src/engine/matching_engine.cpp:217-229 | it lists no order twice |
| Sweep.FlattenKeepsQueues | src/engine/matching_engine.cpp:229 | it lists the orders at a price in the order of their queue |
| Sweep.DisplayedIsTotal | src/book/order_book.cpp:426-434 | its displayed total is the sum of the totals of the side's levels |
| Sweep.FlattenSorted | src/engine/matching_engine.cpp:217-221 | no order waits behind one with a worse price |
| Sweep.QuotedAt | src/engine/matching_engine.cpp:229 | the listing of one level has the ids of its queue, in order, at its price |
| Sweep.FrontIsHead | src/engine/matching_engine.cpp:218-235 | the front order of the best price exists and is the head of the flattened side |
| Sweep.SweepStep | src/engine/matching_engine.cpp:237-241 | executing on the head succeeds, consumes it there, and leaves the other side alone |
| Sweep.SweepUnfold | src/engine/matching_engine.cpp:217-253 | one turn of the matching loop is the first fill of the sweep, followed by the sweep of what is left |
| Sweep.GreedyShape | src/engine/matching_engine.cpp:217-253 | the fills take the flattened side from its head, at its prices, within the limit, and all but the last take whole orders |
| Sweep.LeftoverShape | src/engine/matching_engine.cpp:217-255 | what remains is the rest in unchanged order, its head reduced by a partial last fill; an unfilled quantity means nothing left may trade |
| Sweep.SweepConserves | src/engine/matching_engine.cpp:247-255 | the displayed total drops by exactly what was filled |
| Sweep.SweepLeaves | src/engine/matching_engine.cpp:206-257 | the book after the sweep shows the unconsumed rest opposite and its own side untouched |
| MatchingEngines.MatchingEngine.Clear | src/engine/matching_engine.cpp:180-184 | the engine is a new one with the same limits |
| MatchingEngines.MatchingEngine.Apply | src/engine/matching_engine.cpp:21-127 | if it returns, all that the event is to do (`EngineMeaning.EventIs`): the effect on its book, the reported action, the named counter and no other; if an allocation fails, the state of the engine on values after that exception |
| MatchingEngines.MatchingEngine.EnsureBook | src/engine/matching_engine.cpp:186-192 | the book of the locate, created empty when absent, the other books as they were; when an allocation fails nothing changes, or an entry without a book stays |
| MatchingEngines.MatchingEngine.NextFill | src/engine/matching_engine.cpp:218-237 | finds the head of the flattened opposite side when it may trade, and says so when there is nothing to take |
| MatchingEngines.MatchingEngine.Match | src/engine/matching_engine.cpp:206-257 | state, result and fill buffer are those of the greedy sweep; the exits for a broken book are never taken |
| MatchingEngines.MatchingEngine.SubmitLimit | src/engine/matching_engine.cpp:129-150 | if it returns, all that the order is to do (`SubmissionMeaning.LimitIs`), and the fills in the buffer as far as they fit; if an allocation fails, the fills stay |
| MatchingEngines.MatchingEngine.SubmitMarket | src/engine/matching_engine.cpp:152-162 | all that the order is to do (`SubmissionMeaning.MarketIs`), and the fills in the buffer as far as they fit |
| EngineLaws.ApplyKeeps | src/engine/matching_engine.cpp:21-127 | one event keeps counter, caps, statistics and books valid |
| EngineLaws.ThrowKeeps | src/engine/matching_engine.cpp:21-53 | an event that ends in an exception changes no order of any book and keeps the engine valid |
| EngineLaws.LimitThrowKeeps | src/engine/matching_engine.cpp:138-148 | a limit order that ends in an exception leaves exactly the sweep it did |
| EngineLaws.RestCanBeAdded | src/engine/matching_engine.cpp:138-141 | after the sweep of a limit order with a fresh id the rest can always be added to its book |
| EngineRuns.CountersHold | src/engine/matching_engine.cpp:21-204 | in every reachable state, exceptions included, the counter is the number of orders over all books and within its cap, the entries for books are within theirs, and `messages` is the sum of the seven outcomes and of the events that threw |
| EngineRuns.HollowIs | src/engine/matching_engine.cpp:186-192 | the entries without a book are exactly those of the locates whose book could not be allocated since the last `clear` |
| EngineRuns.CrashesExactly | src/engine/matching_engine.cpp:186-199 | `apply` dereferences a missing book exactly on an order for such a locate while orders and entries are below their caps |
| EngineRuns.FailedBookIsDereferenced | src/engine/matching_engine.cpp:186-192 | a run of two orders in which that happens |
| EngineRuns.NoFailureIsSound | src/engine/matching_engine.cpp:186-192 | without a failed allocation it happens in no run |
| EngineRuns.EventOnBook | src/engine/matching_engine.cpp:24-126 | an event does its own operation to its own locate's book, unless a cap refuses it, and nothing to any other |
| EngineRuns.RejectedChangesNothing | src/engine/matching_engine.cpp:201-204 | a rejected or ignored event changes no order of any book |
| EngineRuns.RejectionMakesBook | src/engine/matching_engine.cpp:28-35 | a rejected event makes a book exactly when it is an order of no shares, within the caps, for a locate without one |
| EngineRuns.ApplyOutcome | src/engine/matching_engine.cpp:21-127 | the reported action is determined by the operation, the caps and the book's answer; one outcome counter moves; the counter of orders moves by what the book gained or lost |
| EngineMeaning.EventMeans | src/engine/matching_engine.cpp:21-127 | for every event: when it is accepted, in terms of the caps and the live orders; what it does to its book; which action is reported; that the counter of that name and no other grows; that all other books stay |
| EngineMeaning.CountedMeans | src/engine/matching_engine.cpp:38-126 | reporting an action counts a message, steps the counter of that name and leaves the six others |
| EngineMeaning.CountersCount | include/lob/matching_engine.hpp:31-40 | in every reachable state each of the seven counters is the number, in 64 bits, of events since the last `clear` that were reported so, and `messages` the number of all events since then, exceptions included |
| EngineRuns.BooksAreIndependent | src/engine/matching_engine.cpp:21-127 | without refusals by a cap, the book of a locate is one book run on just that locate's operations |
| EngineRuns.CapsSuffice | src/engine/matching_engine.cpp:194-199 | no cap refuses an order when the number of orders in the input and of the locates they are for fit in the caps |
| EngineRuns.SubmitLimitOutcome | src/engine/matching_engine.cpp:129-150 | filled, resting and unfilled add up to the quantity; acceptance fails exactly when a residual meets a cap; what rests is the order; books and fills do not depend on the buffer size |
| EngineRuns.SubmitLimitConserves | src/engine/matching_engine.cpp:138-148 | the opposite side's displayed total drops by exactly what was filled |
| EngineRuns.SubmitMarketConserves | src/engine/matching_engine.cpp:152-162 | a market order never rests; what it leaves unfilled means the opposite side is empty; totals are conserved |
| SubmissionMeaning.FlattenLists | src/engine/matching_engine.cpp:217-229 | the flattened side lists every live order of the side once, higher bids and lower asks first, and within a price in queue order |
| SubmissionMeaning.LimitMeans | src/engine/matching_engine.cpp:129-150 | for every limit order: refused exactly without a quantity or under a taken id; fills from the head of the opposite line at prices up to the limit, wholly but for the last, until nothing is left or nobody may trade; the rest stands behind all others at its price, or is given back exactly when a cap leaves no room |
| SubmissionMeaning.MarketMeans | src/engine/matching_engine.cpp:152-162 | for every market order: refused exactly without a quantity; the same at any price; the rest is given back |
| EngineRuns.UncrossedTop | src/engine/matching_engine.cpp:218-227 | an uncrossed book has its best bid strictly below its best ask |
| EngineRuns.RunUncrossed | src/engine/matching_engine.cpp:54-162 | from an empty engine, every run of submissions, cancellations, executions and deletions keeps the best bid strictly below the best ask in every book, also where a submission throws |
| RingProtocol.SlotIs | include/lob/spsc_ring.hpp:132-138 | the masked, wrapped index is the position modulo the capacity |
| RingProtocol.WrapDistance | include/lob/spsc_ring.hpp:51 | the wrapped difference equals the capacity exactly when the unbounded one does |
| RingProtocol.StepKeeps | include/lob/spsc_ring.hpp:48-95 | every micro-step of either thread, with any coherent load, keeps the invariant |
| RingProtocol.InvNoFault | include/lob/spsc_ring.hpp:55-77 | no slot is constructed while live, moved from while raw, or destroyed twice |
| RingProtocol.PushAnswer | include/lob/spsc_ring.hpp:49-53 | a push refuses exactly when, as far as the producer knows, the ring is full, and keeps its argument |
| RingProtocol.PopAnswer | include/lob/spsc_ring.hpp:66-70 | a pop refuses exactly when the consumer knows of no value to take |
| RingProtocol.RingIsAQueue | include/lob/spsc_ring.hpp:48-95 | in every interleaving popped then queued values are the pushed ones in order, occupancy stays within the capacity, the queued values are where the wrapping indices say, and no slot is touched in the wrong state or without knowing that the other thread is done with it |
| RingProtocol.PowersAre | include/lob/spsc_ring.hpp:125-130 | the accepted capacities are exactly the powers of two |
| RingCalls.PushCallMeans | include/lob/spsc_ring.hpp:48-60 | whatever the consumer does meanwhile, a push appends exactly its argument, or refuses and leaves the queue alone; it refuses exactly when the ring was full by the newest publication it saw, never when there was known room |
| RingCalls.PopCallMeans | include/lob/spsc_ring.hpp:65-79 | whatever the producer does meanwhile, a pop takes the front value, or refuses and leaves the queue alone; it refuses exactly when the queue was empty by the newest publication it saw |
| RingCalls.PushMaySee | include/lob/spsc_ring.hpp:49-53 | a push may see any publication of the consumer not older than it knows, and refuses exactly when the ring is full by that one |
| RingCalls.PopMaySee | include/lob/spsc_ring.hpp:66-70 | a pop may see any publication of the producer not older than it knows, and refuses exactly when the queue is empty by that one |
| RingCalls.EmptyCallMeans | include/lob/spsc_ring.hpp:91-95 | a negative answer is true when given; a positive one says the queue was empty by the newest publication seen |
| RingCalls.FullCallMeans | include/lob/spsc_ring.hpp:83-87 | a negative answer is true when given; a positive one says the ring was full by the newest publication seen |
| SpscRings.SpscRing.Create | include/lob/spsc_ring.hpp:125-130 | a ring is made exactly for the powers of two, with that many slots |
| SpscRings.SpscRing.Emplace | include/lob/spsc_ring.hpp:48-60 | alone, pushes exactly when there is room, and leaves the queue alone otherwise |
| SpscRings.SpscRing.TryPop | include/lob/spsc_ring.hpp:65-79 | alone, takes the oldest value, none exactly when the queue is empty |
| SpscRings.SpscRing.Full | include/lob/spsc_ring.hpp:83-87 | alone, whether the queue holds as many values as its capacity |
| SpscRings.SpscRing.Empty | include/lob/spsc_ring.hpp:91-95 | alone, whether the queue is empty |
| SpscRings.SpscRing.Clear | include/lob/spsc_ring.hpp:140-147 | destroys live objects only, and leaves none |
| ReplayPipeline.ActionKeeps | src/app/itch_replay.cpp:312-366 | every step of either thread keeps the pipeline's invariant |
| ReplayPipeline.NothingLost | src/app/itch_replay.cpp:312-372 | in every interleaving the applied events are a prefix of the decoded ones; when the consumer has left its loop they are all of them, in order, and `producer_failed` says whether the input failed |
| ReplayPipeline.NeverStuck | src/app/itch_replay.cpp:331-347 | every run can be continued until the consumer has left its loop with every event applied |
| ReplayPipeline.ProducerMoves | src/app/itch_replay.cpp:314-336 | a producer that is not waiting for room can take its next step, which brings the end nearer |
| ReplayPipeline.ConsumerMoves | src/app/itch_replay.cpp:344-366 | otherwise the consumer can, which brings the end nearer |
| ReplayPipeline.MaySpin | src/app/itch_replay.cpp:344-348 | nothing forces the end: a turn of the consumer's loop that sees neither the end nor a new value is always possible and leaves everything as it was |
| ItchCodec.ReadBe | src/itch/itch.cpp:16-24 | the loop computes the big-endian value of the bytes, without losing any |
| ItchCodec.ReadTimestamp | src/itch/itch.cpp:27-35 | the loop computes the big-endian value of the six bytes |
| ItchCodec.ReadChars | src/itch/itch.cpp:38-46 | the array holds the bytes |
| ItchCodec.BytesOfNumber | tests/itch_test.cpp:14-36 | the bytes written for a number have that number as their value |
| ItchCodec.NumberOfBytes | tests/itch_test.cpp:14-36 | writing the value of some bytes gives those bytes |
| ItchCodec.HeaderLayout | src/itch/itch.cpp:48-55 | a message is the encoding of an event exactly when type, header and the bytes behind the header are |
| ItchCodec.MessageIsLossless | src/itch/itch.cpp:100-294 | for all fourteen layouts, a message of the right length decodes to an event exactly when it is that event's encoding |
| ItchCodec.MessageShape | src/itch/itch.cpp:103-294 | the length each case demands is the length of the encoding, and the side byte is where it is looked for |
| ItchCodec.FrameDecides | src/itch/itch.cpp:311-326 | every proper prefix of a frame asks for more data, the frame never does, and what follows it does not matter |
| ItchCodec.DecodeOfEncode | src/itch/itch.cpp:311-326 | decoding an encoded event followed by any bytes gives the event and its frame's length |
| ItchCodec.EncodeOfDecode | src/itch/itch.cpp:311-326 | encoding a decoded event that was not skipped gives back the consumed bytes |
| ItchCodec.DecodesExactly | src/itch/itch.cpp:100-326 | an event of a modelled type is the answer exactly when the input starts with its encoding |
| ItchCodec.RefusedExactly | src/itch/itch.cpp:81-307 | a frame of a modelled type is refused exactly when it is the encoding of no event |
| ItchLayout.EventSays | src/itch/itch.cpp:48-307 | a message of the right length with a valid side decodes to the event whose every field is the stated bytes: B is buy, S is sell, numbers are sums of single bytes, other types are skipped with their header |
| ItchLayout.DecodeMeans | src/itch/itch.cpp:81-326 | the answer to every string of bytes: more data, which error at which offset, or the event of the first message and its length |
| ItchLayout.SaysOne | src/itch/itch.cpp:100-307 | the bytes of a message leave no choice of event |
| FrameReader.ByteSource.ReadAtMost | src/app/itch_replay.cpp:148-175 | delivers some of the remaining bytes, in order and within the capacity; 0 or an error only at the end |
| FrameReader.NextFrame | src/app/itch_replay.cpp:103-143 | status and frame depend only on the bytes that are left, not on how they are cut up |
| FrameReader.Produce | src/app/itch_replay.cpp:314-335 | events and end are those of decoding the whole byte string frame after frame, however the source cuts it up |
| FrameReader.FrameMeans | src/app/itch_replay.cpp:323-329 | a frame that was read never asks for more data, and is consumed whole |
| FrameReader.IncompleteTail | src/app/itch_replay.cpp:114-141 | the reader reports the end or a fault exactly where the decoder would ask for more data |
| FrameReader.StatusIs | src/app/itch_replay.cpp:103-143 | which of frame, end, failure, truncated prefix and truncated payload is answered, by the bytes left |
| FrameReader.DecodedMeans | src/app/itch_replay.cpp:314-335 | the first event, the bytes behind it, or why the decoding ends, for every string of bytes |
| FrameReader.FileRoundTrip | src/itch/itch.cpp:311-326 | a file written from any list of events decodes to that list and goes on with what follows |
| Replay.ReplayIsTheFold | src/app/itch_replay.cpp:305-372 | for every input, however it ends, and every interleaving: the engine is at any moment what the first events of the input make of a new one; when the consumer has left its loop, what all of them do, and the failure flag is set exactly when the input does not end well |
| Replay.ReplayReconstructs | src/app/itch_replay.cpp:305-372 | for every input, however it ends: where no cap refuses an order each locate has, at the end, the reference book of its own operations in the input |
| Replay.FileIsReconstructed | src/app/itch_replay.cpp:305-372 | so for a file written from any events of modelled types whose orders and locates fit in the caps |
| Replay.StepAgrees | src/app/itch_replay.cpp:314-351 | one step of the program on its input and engine is one step of its threads |
| Replay.ReplayNeverStuck | src/app/itch_replay.cpp:331-347 | every replay can be continued to its end |
| Histograms.BinHolds | src/metrics/latency.cpp:73-99 | bins stay below the bin count for every 64-bit value; a value is at least its bin's lower bound, by at most a 1024th of itself, below the next bin's, and exact below 2048 |
| Histograms.IndexOfValue | src/metrics/latency.cpp:73-99 | the bin of a bin's lower bound is that bin |
| Histograms.ValuesIncrease | src/metrics/latency.cpp:87-99 | lower bounds are strictly increasing |
| Histograms.IndexMonotone | src/metrics/latency.cpp:73-85 | larger values never fall in lower bins |
| Histograms.BinsTile | src/metrics/latency.cpp:73-99 | a bin holds exactly the values from its lower bound to the next one's |
| Histograms.ValueShape | src/metrics/latency.cpp:92-98 | the shift never loses a bit |
| Histograms.RankIsNearest | src/metrics/latency.cpp:40-47 | the computed rank is, in exact arithmetic, the one `r` with 100 r >= p n and, above 1, 100 (r - 1) < p n; below 0 percent it is 1 and above 100 percent n |
| Histograms.FirstReached | src/metrics/latency.cpp:49-55 | the bin where the running count first reaches the rank is the bin of the nearest-rank value of every sorted list of the recorded values |
| Histograms.PercentileError | include/lob/latency.hpp:20-26 | with `t` the value at the nearest rank, the answer is never above `t`, below it by at most `t / 1024`, and exact below 2048 |
| Histograms.HdrHistogram.constructor | src/metrics/latency.cpp:9 | nothing is recorded |
| Histograms.HdrHistogram.Record | src/metrics/latency.cpp:11-20 | the value joins the recorded ones; counters, minimum and maximum follow, in 64 bits |
| Histograms.HdrHistogram.Reset | src/metrics/latency.cpp:22-27 | nothing is recorded |
| Histograms.HdrHistogram.Min | src/metrics/latency.cpp:11-31 | the least value since the 64-bit count last left 0, and 0 while it is 0; so the least recorded value below 2^64 of them |
| Histograms.HdrHistogram.Max | src/metrics/latency.cpp:11-33 | the greatest recorded value, and 0 while the 64-bit count is 0 |
| Histograms.HdrHistogram.ValueAtPercentile | src/metrics/latency.cpp:35-60 | the lower bound of the bin of the value at the nearest rank: that value, or below it by at most a 1024th of it |

## Left out

- Histograms.HdrHistogram.ValueAtPercentile: the percentile is a real number, so rounding and NaN are not modelled; from 2^64 recorded values on, where the source's own counters wrap, only the answer 0 for a count of 0 is stated.
- Histograms.RankIsNearest: the product of percentile and count is exact here, where the source uses `long double`.
- SpscRings.SpscRing.Emplace: stated for the code over the array without a step of the consumer in between; RingCalls.PushCallMeans states the same call, as micro-steps, under every interleaving.
- SpscRings.SpscRing.TryPop: stated for the code over the array without a step of the producer in between; RingCalls.PopCallMeans states the same call under every interleaving.
- SpscRings.SpscRing.Full: as for Emplace; RingCalls.FullCallMeans states the call under every interleaving.
- SpscRings.SpscRing.Empty: as for TryPop; RingCalls.EmptyCallMeans states the call under every interleaving.
- OrderBooks.OrderBook.DepthAt: the total is the sum modulo 2^64, as in the source; it is exact for at most 2^32 orders.
- MatchingEngines.MatchingEngine.Apply: nothing is stated of a call that dereferences a missing book, whose behaviour the language leaves undefined; EngineRuns.CrashesExactly says which calls these are.
- MatchingEngines.MatchingEngine.SubmitLimit: as for Apply.
- ReplayPipeline.NeverStuck: that a fair scheduler does reach the end is not stated, only that the end stays reachable from every reachable state, with each step of the chosen continuation coming nearer to it; ReplayPipeline.MaySpin shows that without fairness it need not be.
- Replay.ReplayIsTheFold: the engine of a replay is taken not to run out of memory; the program does not catch the exception.
- The entries of the engine's map that hold a null pointer are a set of locates beside the map of books.
- The fixed arrays inside trie nodes (masks, children) and the pair of level maps are sequence-valued fields of their object that the methods reassign, since they are part of the object and never shared.
- Sizes and counts of containers (`order_count`, number of fills, number of books) are unbounded natural numbers.
- Hash tables are maps from keys to nodes; buckets, rehashing and expected running times are not modelled.
- The C++ memory model beyond monotone views of two indices and one flag: fences, other locations, out-of-order effects within a thread.
- `size()` of the ring is advisory and would add nothing to `empty` and `full`.
- Files, gzip, argument parsing, clocks, checkpoints, printing and the benchmark. A byte source is any string of bytes followed by an end or an error.
- The text of error messages; the decoder's error codes that no code path produces.
- Which latency a replayed event is recorded under, and the summary of three percentiles.
- Payloads of skipped messages: the decoder discards them, so encoding covers the modelled types only.
- Changes to a book through the non-const `find_book`, which bypass the engine's counter.
- Object lifetime details of C++: move constructors of the book, alignment, `std::launder`.
