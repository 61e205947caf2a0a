# Verified model of the low-latency trading engine

A Dafny model of a matching engine's order book, journal, recovery, threads and risk checks, with proofs of what they
guarantee. `dafny verify dfyconfig.toml` checks everything.

The model is layered. At the bottom are plain values: a side of the book is one flat list in matching order, a match is
a greedy sweep of that list, a journal is a sequence of events and then a sequence of bytes. Classes follow the
program's own data structures (sorted price levels of queues over a slot pool, an engine that publishes events, a
recovery loop, a risk engine with two maps) and each of their methods is proved to do exactly what the value functions
say. Threads are state machines whose steps are the program's atomic accesses, and theorems about them hold for every
interleaving.

| files | content |
|---|---|
| `Types`, `Arithmetic`, `PriorityList`, `SweepLaws`, `Thinning`, `Book`, `MatchLaws` | orders, the greedy sweep and its closed form, book operations, invariants, guarantees of FOK and self-trade prevention, and what a match and a replace mean |
| `Engine`, `EngineLaws`, `PriorityCounter`, `TimePriority` | commands and what each does, published events, counters, the priority counter's exchange loops, time priority over runs and through recovery |
| `Replay`, `ReplayLaws`, `History`, `CrashConsistency`, `Widths`, `Unfaithful`, `Escape` | folding events back into a book, exactly when that rebuilds the live one, runs, crashes and restarts; field widths; runs that fail, and the exception that leaves replay |
| `Crc32`, `Wire`, `FileReplay`, `Serializer`, `Recovery` | checksum, record format, byte-level replay, end-to-end recovery |
| `LevelStore`, `OrderPool`, `LevelQueues`, `OrderBook`, `MatchingEngine`, `RecoveryRun` | the mutable objects, refining the values above |
| `JournalRing`, `Journal`, `FlushAnswers`, `Shutdown`, `RingQueue`, `Durability`, `ConcurrentEngine` | the rings and threads |
| `Risk`, `RiskEngine` | reservations, exposure bound, the audit against the book |

## Main results

1. **Crash at any moment, in any life** (`Durability.CrashAtAnyMoment`). After any number of crashes and restarts, an
   engine runs faithful commands while the journal's threads interleave in any way over the file of the earlier lives,
   including I/O failure and shutdown. At every moment the file recovers: the engine comes back READY with exactly the
   book of a prefix of the whole history, and that prefix covers the past and everything a `flush` has confirmed.
   Behind it: replay rebuilds the live book **if and only if** the command is faithful
   (`EngineReplay.StepReplaysIff`), for all order types, all self-trade policies, cancels and replaces.
2. **Every cut recovers** (`Recovery.CutRecovers`, `FileReplay.CutReplays`), **any chain of crashes and restarts**
   keeps sequence numbers contiguous and priorities increasing (`CrashConsistency.LivesReplay`,
   `Recovery.LivesRecover`), and **appending continues a journal exactly when it ends on a record boundary**, checksum
   collisions apart (`FileReplay.AppendHonoured`).
3. **The book over pool slots refines a flat list consumed greedily** (`OrderBook.OrderBook.MatchOrder`,
   `SweepLaws.SweepPaysShares`): each resting order gets exactly what the quantity ahead of it leaves over. What a match
   and a replace do is stated on quantities, limits and positions alone, for every order type and policy, and allows one
   outcome only (`MatchLaws.MatchIs`, `MatchLaws.MatchMeansOnce`, `MatchLaws.ReplaceIs`); so is every command of the
   engine (`EngineLaws.StepIs`).
4. **No interleaving loses, repeats or reorders a record** (`JournalRing.FirstInFirstOut`, `Journal.FileAlwaysPrefix`),
   a writer that has left a healthy journal has written everything but what was pushed behind its back
   (`Journal.CleanShutdown`), nobody sleeps through a wakeup (`Journal.NoLostWakeup`), from every reachable state a flush
   can return within a stated number of steps (`Journal.FlushCanReturn`), true if nothing fails
   (`FlushAnswers.HealthyFlushSucceeds`) and false only for a reason (`FlushAnswers.FalseForAReason`), and a stopped
   journal's writer comes to its end (`Shutdown.ShutdownEnds`).
5. **A stop is certain to drain the order queue if and only if it finds no submission past its check**
   (`ConcurrentEngine.StopDrainsIff`), from every reachable state.
6. **The recorded position stays within the limit, whichever resting orders fill** (`Risk.PositionsBounded`), it is the
   executed position exactly for traders who are never the aggressor (`Risk.RecordedIff`), and the audit passes exactly
   when reservations and resting orders correspond one to one, field by field (`RiskEngine.AuditExact`,
   `RiskEngine.AuditIff`).

## Where the code does not do what its documentation says

Each of these is kept as the code has it, shown by a concrete input, and delimited exactly.

- The documentation calls FOK atomic. The liquidity check happens before CANCEL_OLDEST removes an order
  (src/OrderBook.cpp:356-371), so a FOK order can execute in part: `MatchGuarantees.FokTornExample`, with the exact
  condition in `MatchGuarantees.FokAtomicIff`.
- CANCEL_OLDEST removes one own order and then matches; a second own order within reach trades with its own trader:
  `MatchGuarantees.OldestSelfTradeExample`, exactly when in `MatchGuarantees.OldestSelfTradesIff`.
- Self-trade cancellations publish no event, and a LIMIT order turned away by CANCEL_NEWEST or CANCEL_BOTH is published
  as accepted; an order that finds the pool exhausted, or whose trader id exceeds 32 bits, is published all the same.
  In each of these cases the journal does not rebuild the book: `Unfaithful.StpExample`, `Unfaithful.PoolExample`,
  `Unfaithful.WideTraderExample`, exactly when in `MatchReplay.MatchReplaysIff`.
- A replace at the same price that does not increase the quantity publishes its old priority, which replay refuses:
  `Unfaithful.KeptExample`, always by `EngineReplay.KeptNeverReplays`. At an unchanged quantity it also goes behind
  younger orders: `Unfaithful.ShuffleExample`, exactly when in `EngineInvariant.FifoIff`.
- One to three stray bytes at the end of a journal count as a clean end of file (`FileReplay.CutReplays`), and the next
  record appended behind them makes every later recovery refuse the journal: `FileReplay.StrayBytesReject`. Nothing trims
  a longer torn record either: what is appended is swallowed until the torn length is made up
  (`FileReplay.TornTailSwallows`), and then the splice is refused unless its checksum happens to match
  (`FileReplay.TornTailSpliced`).
- A resting LIMIT order of a trader whose id is a multiple of 2^32 is journaled with trader zero. The order constructor
  throws on it, and the exception leaves `replay` with the engine still RECOVERING and taking orders:
  `Escape.EscapeExample`, `Escape.WideTraderEscapes`. Exactly which journals do this: `Escape.EscapesIff`; exactly which
  commands write them: `Escape.CommandEscapesIff`.
- Risk validation can accept an order that then cannot rest: `Risk.ValidatedButCannotRest`, and after a restart under a
  tighter limit `Risk.RestoredButCannotRest`; exactly when, in any state, in `Risk.CanRestIff`.
- Fills are reported to the risk engine for resting orders only, so what a trader's incoming orders trade on entry never
  counts against the limit: `Risk.TwoIocExample`, and `Risk.RecordedMisses` says by how much.
- The documentation says that a stop drains the queue; a submission in flight when the stop begins can be accepted after
  the consumer has left, and is then not processed while the engine stays stopped (a later `start` runs a new consumer
  that finds it in the ring): `ConcurrentEngine.InFlightOrderLost`, exactly when in `ConcurrentEngine.StopDrainsIff`.

## Model

| member | source | states |
|---|---|---|
| SweepLaws.SweepPaysShares | src/OrderBook.cpp:467-563 | On a sorted side the matching loop pays every resting order exactly its price-time share (what the quantity ahead leaves over, if it crosses), in list order: a closed form without the loop |
| SweepLaws.FillIffReached | src/OrderBook.cpp:467-563 | A fill occurs if and only if it is the share of an order that is live, crosses and is not covered by the quantity ahead |
| SweepLaws.SweepConserves | src/OrderBook.cpp:467-563 | The traded quantity equals what the incoming order lost and what the resting side lost |
| SweepLaws.FillBounds | src/OrderBook.cpp:467-563 | Every fill is positive, at most what the order had, within the limit, and against an order of the list |
| SweepLaws.SweepExhausts | src/OrderBook.cpp:468-476 | The loop stops with quantity left only if the side is empty or its best price does not cross |
| SweepLaws.LeftIsShortfall | src/OrderBook.cpp:467-563 | What is left is exactly the shortfall of the crossing depth |
| SweepLaws.CanFullyFillIff | src/OrderBook.cpp:249-286 | The early-exit scan is true exactly when the matching loop would reach zero |
| SweepLaws.WouldSelfTradeIff | src/OrderBook.cpp:288-351 | The lookahead is true exactly when the match would put one trader on both sides of a trade |
| SweepLaws.DropFirstOwnHits | src/OrderBook.cpp:369-453 | CANCEL_OLDEST removes exactly the first own order the match would have hit, and nothing else |
| SweepLaws.DropAllOwnExact | src/OrderBook.cpp:369-460 | CANCEL_BOTH removes exactly the own live orders within the limit |
| SweepLaws.SweepLeavesRest | src/OrderBook.cpp:467-563 | What the loop leaves: the used-up orders are gone, every other one is less its share, in order |
| MatchLaws.MatchIs | src/OrderBook.cpp:353-574 | For every order type and policy: too short a side or a refusing policy leaves the book and the order alone (CANCEL_BOTH without the live own orders within the limit); otherwise every reached order is paid its share, the others stay, and what is left of a LIMIT order joins its side behind its equals if a slot is free. CANCEL_OLDEST trades with the side less its first own order |
| MatchLaws.MatchMeansOnce | src/OrderBook.cpp:353-574 | That description allows one outcome only |
| MatchLaws.FillsIff | src/OrderBook.cpp:353-574 | An order of the book trades if and only if the incoming order is not turned away and comes to it, and then for exactly its share |
| MatchLaws.NoFillsIff | src/OrderBook.cpp:353-574 | There is no trade exactly when the order is turned away or nothing within its limit is on offer |
| MatchLaws.LimitsKept | src/OrderBook.cpp:467-563 | No trade is beyond the limit, and an order that has something left has left nothing within its limit; a MARKET order has emptied the side |
| MatchLaws.ReplaceIs | src/OrderBook.cpp:127-247 | A replace is refused exactly for a bad price, an unknown id or less than had traded; otherwise it removes, resizes that one order in place, or matches an order of the new terms less what had traded, with the old id, trader, symbol and side, on the book without it |
| MatchLaws.ReplaceMeansOnce | src/OrderBook.cpp:127-247 | That description allows one outcome only |
| MatchLaws.RenewedConserves | src/OrderBook.cpp:201-240 | What is executed and what is left of a replaced order make up its new quantity less what had already traded |
| MatchLaws.RenewedRests | src/OrderBook.cpp:201-240 | A replaced order that rests has the new terms, its old identity, and exactly what is left as remaining |
| MatchLaws.AddIs | src/OrderBook.cpp:49-87 | A live order rests when a slot is free, behind everyone at its price; otherwise nothing changes |
| MatchLaws.FillIs | src/OrderBook.cpp:663-727 | A fill by id is refused for zero, an unknown id or more than remains; otherwise that order alone is reduced, or removed at zero |
| BookInvariant.MatchKeeps | src/OrderBook.cpp:353-574 | Under every policy, matching keeps both sides sorted, ids distinct, orders well formed and best bid below best ask, and brings in no id but the incoming one |
| BookInvariant.CancelKeeps | src/OrderBook.cpp:89-125 | Cancelling leaves exactly the other orders, each in its place, and keeps the book well formed; the id is gone |
| BookInvariant.FillKeeps | src/OrderBook.cpp:663-727 | Applying a fill by id keeps the book well formed and adds no id |
| BookInvariant.ReplaceKeeps | src/OrderBook.cpp:127-247 | Every kind of replace keeps the book well formed and adds no id |
| MatchGuarantees.FokAtomicIff | src/OrderBook.cpp:353-371 | A FOK order trades in full or not at all, except exactly when CANCEL_OLDEST takes away part of the depth the check counted; under the other policies always |
| MatchGuarantees.FokTornExample | src/OrderBook.cpp:356-371 | A concrete FOK order for 10 that executes 5 |
| MatchGuarantees.NoSelfTrade | src/OrderBook.cpp:362-465 | Under CANCEL_NEWEST and CANCEL_BOTH no match has the same trader on both sides, for every book and order |
| MatchGuarantees.ReplaceNoSelfTrade | src/OrderBook.cpp:127-247 | The same for an order that re-enters the book through a replace |
| MatchGuarantees.OldestSelfTradesIff | src/OrderBook.cpp:369-453 | Under CANCEL_OLDEST a trader trades with itself exactly when a second own order is reached once the first is gone |
| MatchGuarantees.OldestSelfTradeExample | src/OrderBook.cpp:369-453 | A trader with two resting orders whose own order trades with the second |
| EngineLaws.StepIs | src/MatchingEngine.cpp:41-258 | Every command in every state: the new book as described above, the counters, and each published event field by field; halted or unhealthy, nothing happens |
| EngineLaws.CancelRemoves | src/MatchingEngine.cpp:118-145 | A healthy cancel of a resting order leaves the book without it and publishes one event |
| EngineInvariant.StepSane | src/MatchingEngine.cpp:41-258 | Every command under every policy keeps the book well formed and uncrossed, within the pool, and every resting priority below the counter |
| EngineInvariant.FifoIff | src/MatchingEngine.cpp:147-258 | Strict priority order within each price survives a command exactly when the command is not an unchanged-terms replace of an order with others behind it |
| TimePriority.RunFifo | src/MatchingEngine.cpp:41-258 | Over every run without such a replace: strict priority order in every level, every resting priority below the counter |
| TimePriority.ReplayInOrder | src/Recovery.cpp:132-162 | Every journal that replays, whoever wrote it, rebuilds a book in price and time order below the next priority recovery hands out |
| TimePriority.FifoThroughRecovery | src/Recovery.cpp:417-428 | After any number of crashes and restarts, the resumed engine trades on in strict time priority |
| Replay.ReplayConcat | src/Recovery.cpp:364-435 | Replaying a concatenation is replaying its parts one after the other |
| ReplayLaws.ApplyIs | src/Recovery.cpp:251-362 | Replay applies exactly the events that fit the history and the book, each with exactly its effect, and counts them |
| ReplayLaws.ReplayShaped | src/Recovery.cpp:364-435 | Any journal that replays rebuilds sorted sides of well-formed orders with unique ids, within the pool |
| ReplayLaws.CrossedExample | src/MatchingEngine.cpp:260-287 | A journal that replays and rebuilds a crossed book |
| Replay.ReplayedIsOrdered | src/Recovery.cpp:112-146 | Whatever replays has contiguous sequence numbers and strictly increasing priorities |
| MatchReplay.SweepReplays | src/MatchingEngine.cpp:58-90 | Trade events, applied as fills by order id, reproduce the list the matching loop left |
| MatchReplay.MatchReplaysIff | src/MatchingEngine.cpp:41-116 | The events of a match rebuild the live book if and only if no self-trade cancellation went unseen and an order that rests has a 32-bit trader id and finds a free slot |
| EngineReplay.StepReplaysIff | src/MatchingEngine.cpp:41-258 | From any state in which journal and engine agree, the events of any command rebuild the engine's new book if and only if the command is faithful (a condition on the state before the command) |
| EngineReplay.KeptNeverReplays | src/MatchingEngine.cpp:167-184 | No replace that keeps its priority can be replayed |
| EngineReplay.EventsSound | src/Recovery.cpp:251-362 | Any prefix of a command's events that replays ends in a state the engine can resume from, counters in step |
| CrashConsistency.RunReplays | src/MatchingEngine.cpp:41-258 | Replaying the journal of a whole run rebuilds the live book, order for order, with the counters in step |
| CrashConsistency.RunCut | src/Recovery.cpp:364-435 | Cut between any two records, the journal of a run replays to a state the engine can resume from |
| CrashConsistency.LivesReplay | src/ShardedJournalManager.cpp:41-58 | Over any number of crashes and restarts the whole journal replays, with contiguous sequences and increasing priorities: no validator ever rejects |
| CrashConsistency.OneMoreLife | src/ShardedJournalManager.cpp:41-58 | A life of the current engine, cut after any record, continues the chain, and its records continue the journal |
| Unfaithful.LastCommandIff | src/MatchingEngine.cpp:41-258 | After any faithful run of a new engine, the whole journal rebuilds the book after one more command if and only if that command is faithful |
| Unfaithful.StpExample | src/OrderBook.cpp:362-465 | Two orders of one trader: under each policy that intervenes the journal does not rebuild the book |
| Unfaithful.PoolExample | src/OrderBook.cpp:565-571 | An order that finds the pool exhausted is journaled and not in the book |
| Unfaithful.WideTraderExample | src/MatchingEngine.cpp:94-110 | Trader 2^32 + 5 is journaled as trader 5 |
| Unfaithful.KeptExample | src/MatchingEngine.cpp:167-184 | A same-price decrease that replay refuses |
| Unfaithful.ShuffleExample | src/OrderBook.cpp:167-217 | A run from a new engine in which a replace on unchanged terms breaks time priority |
| Escape.EscapesIff | src/Recovery.cpp:251-312 | Replay throws exactly when some prefix replays and the next event is an acceptance that passes the sequence, field and priority checks with a zero id, a zero trader or a price that is not positive |
| Escape.FileEscapesIff | src/Recovery.cpp:364-435 | A journal file lets the exception out exactly when its events throw; a READY engine is then left RECOVERING with the book rebuilt so far |
| Escape.CommandEscapesIff | src/MatchingEngine.cpp:41-258 | From any state in which journal and engine agree, a command's events make replay throw exactly when it is a resting LIMIT order of a trader whose id is a multiple of 2^32 |
| Escape.WideTraderEscapes | src/MatchingEngine.cpp:29-39 | Any such first order rests live, its journal escapes recovery, and the engine left RECOVERING still takes orders |
| Escape.EscapeExample | src/MatchingEngine.cpp:94-110 | The order, its event and the escape, in figures |
| Widths.StepFits | src/MatchingEngine.cpp:41-258 | Commands whose arguments fit their declared types publish only events that fit the record format |
| Widths.LivesEncodable | src/Journal.cpp:469-600 | So everything a chain of lives journals can be written |
| Crc32.TableStep | src/Recovery.cpp:15-29 | One table lookup does the work of eight bit steps |
| Crc32.BuildTable | src/Journal.cpp:54-65 | The loop fills the table with the remainders of all 256 bytes under the reflected polynomial |
| Crc32.Checksum | src/Journal.cpp:127-136 | The table-driven checksum is bit-at-a-time division (section 8 of RFC 1952) on every byte string |
| Crc32.CrcDetects | src/Recovery.cpp:33-49 | Changing any one byte of any string changes its checksum |
| Wire.ReadFrame | src/Recovery.cpp:172-249 | Parsing inverts framing and leaves what follows untouched |
| Wire.ReadCutFrame | src/Recovery.cpp:172-215 | A record cut short reads as a clean end (under four bytes) or as truncated, never as a record |
| Wire.ReadRejectsChange | src/Recovery.cpp:234-242 | A change confined to one byte of sequence, command, payload or checksum is always rejected |
| Wire.ReadTooLong | src/Recovery.cpp:194-206 | A length beyond the largest payload is refused, whatever follows |
| Wire.AcceptedOnly | src/Recovery.cpp:262-290 | Any record read as an acceptance is byte for byte the record of that acceptance |
| Wire.OthersOnly | src/Recovery.cpp:323-362 | Nothing else is read as an event but a cancellation of 16 bytes and a trade of 45, with the fields at their places |
| Wire.EventRoundTrip | src/Journal.cpp:469-600 | Decoding a serialised event gives back every field recovery reads, for all three kinds of event |
| FileReplay.CutReplays | src/Recovery.cpp:172-249 | Cut at any byte, a journal replays to exactly the fold of its longest prefix of whole records; the torn flag says whether four or more bytes of another were left |
| FileReplay.WholeRecordsFit | src/Recovery.cpp:172-215 | That prefix is the longest that fits in the bytes kept |
| FileReplay.FileIsEvents | src/Recovery.cpp:364-435 | Replaying the bytes of a journal file is replaying its events |
| FileReplay.TornTailSwallows | src/Recovery.cpp:396-401 | Behind four or more bytes of a torn record, whatever is appended is ignored until the torn length is made up |
| FileReplay.TornTailSpliced | src/Recovery.cpp:172-249 | Once it is made up, the splice is processed if its checksum word matches and the journal is refused if not |
| FileReplay.StrayBytesReject | src/Recovery.cpp:182-189 | Behind one to three stray bytes, any appended record makes recovery refuse the journal |
| FileReplay.AppendHonoured | src/Journal.cpp:167-230 | Appended records are replayed as they should if the journal ends on a record boundary, and only if, unless a torn tail and the appended bytes collide in their checksum |
| Serializer.PutBE | src/Journal.cpp:138-165 | Writes the big-endian bytes of the value at the position, and nothing else in the buffer |
| Serializer.Serialize | src/Journal.cpp:469-600 | The buffer ends up holding exactly the framed encoding of the event, checksum included |
| RecoveryRun.ReadBE | src/Recovery.cpp:51-69 | Byte-by-byte accumulation gives the big-endian value |
| RecoveryRun.ReadNext | src/Recovery.cpp:172-249 | The reader gives exactly the framed record, clean end, truncation or corruption the format defines |
| RecoveryRun.Recovery.ValidateSequence | src/Recovery.cpp:112-130 | Accepts the first sequence, then only the successor, never past the 64-bit maximum |
| RecoveryRun.Recovery.ValidatePriority | src/Recovery.cpp:132-146 | Accepts only priorities above every earlier one |
| RecoveryRun.Recovery.Process | src/Recovery.cpp:251-362 | One record changes counters and book as its event's fold step does, or is refused for the same reason |
| RecoveryRun.Recovery.Scan | src/Recovery.cpp:386-415 | The loop over the file computes the fold over its records, the verdict and the torn flag |
| RecoveryRun.Recovery.Replay | src/Recovery.cpp:364-435 | Header, scan, priority seeding and the READY/HALTED transition, for every file, missing ones included |
| RecoveryRun.RecoverShard | src/ShardedJournalManager.cpp:41-58 | Recovers the engine and seeds its 64-bit event counter behind the last record, wrapping at the maximum |
| Recovery.CutRecovers | src/Recovery.cpp:364-435 | Any journal that replays, cut at byte five or later, leaves a fresh engine READY with exactly the fold of the surviving records; refused only if the last priority has been handed out |
| Recovery.RecoverDecides | src/Recovery.cpp:364-435 | For every file and engine: READY exactly when the journal is usable and the engine was not halted, otherwise HALTED and taking no command, unless the exception escapes |
| Recovery.RecoverSound | src/ShardedJournalManager.cpp:41-58 | A soundly replayed file leaves the engine READY with both counters behind everything in the journal |
| Recovery.CrashRecovers | src/Recovery.cpp:364-435 | The journal file of any faithful run that continues any past, cut at any byte of the run, recovers the book of the surviving prefix; uncut, the crashed engine's book |
| Recovery.LivesRecover | src/ShardedJournalManager.cpp:41-58 | The file left by any number of lives recovers, given only that their commands fit the declared types |
| Durability.CrashAtAnyMoment | src/Journal.cpp:281-452 | In any life, in every interleaving and at every moment, the file recovers to a prefix of the whole history that covers the past and every confirmed flush, and continues the chain of lives |
| LevelStore.TidySorted | src/OrderBook.cpp:15-47 | Strictly ranked levels, read front to back, are a sorted flat list |
| LevelStore.LevelsAreGroups | src/OrderBook.cpp:49-87 | Levels are determined by the flat list: equal flat books have equal price levels and queues, whatever the slots |
| OrderPool.OrderPool.constructor | include/OrderPool.h:20-32 | A pool of the given size with no slot in use |
| OrderPool.OrderPool.Allocate | include/OrderPool.h:39-44 | Hands out a slot not in use, and refuses exactly when all are |
| OrderPool.OrderPool.Deallocate | include/OrderPool.h:48-71 | Takes back exactly the slots in use; a foreign slot or a second release is reported and changes nothing |
| OrderPool.OrderPool.Available | include/OrderPool.h:74 | Capacity less the slots in use |
| OrderQueue.OrderQueue.PushBack | include/OrderQueue.h:54-74 | Through compaction and growth the queue is the old sequence plus a new slot holding the order; on an exhausted pool nothing changes; every other queue on the pool stays valid, unchanged and disjoint |
| OrderQueue.OrderQueue.PopFront | include/OrderQueue.h:86-94 | The old sequence without its head, whose slot is free again; an empty queue is left alone; other queues stay valid, unchanged and disjoint |
| OrderQueue.OrderQueue.EraseAt | include/OrderQueue.h:109-121 | The old sequence without its k-th element, whose slot is free again; other queues stay valid, unchanged and disjoint |
| LevelQueues.LevelQueues.EraseAt | src/OrderBook.cpp:89-125 | On levels that hold the compacting queues, erasing or popping an order and dropping an emptied level is the erasure the order book is stated with; the other side's queues are untouched |
| LevelQueues.LevelQueues.Rest | src/OrderBook.cpp:49-87 | On the same levels, appending to a level or opening one is the placement the order book is stated with; on an exhausted pool nothing changes |
| OrderBook.OrderBook.SlotsConserved | include/OrderPool.h:39-74 | The number of resting orders is the number of slots in use, so capacity less available is the order count |
| OrderBook.OrderBook.OrderCount | src/OrderBook.cpp:592-604 | Counts the resting orders, which are the slots in use |
| OrderBook.OrderBook.FindLevel | src/OrderBook.cpp:15-47 | Binary search stops where every earlier level is strictly better and no later one is |
| OrderBook.OrderBook.AddOrder | src/OrderBook.cpp:49-87 | Rests the order behind everyone at its price; on a zero quantity or an exhausted pool fails and changes nothing |
| OrderBook.OrderBook.GetOrder | src/OrderBook.cpp:638-661 | Finds the order of that id, bids first, if there is one |
| OrderBook.OrderBook.CancelOrder | src/OrderBook.cpp:89-125 | Removes that order, its slot and an emptied level, and nothing else |
| OrderBook.OrderBook.ApplyFill | src/OrderBook.cpp:663-727 | Reduces that order, removing it at zero; refuses zero, unknown ids and more than remains |
| OrderBook.OrderBook.CanFullyFill | src/OrderBook.cpp:249-286 | The nested scan decides the flat lookahead |
| OrderBook.OrderBook.WouldSelfTrade | src/OrderBook.cpp:288-351 | The nested scan decides the flat lookahead |
| OrderBook.OrderBook.CancelOwn | src/OrderBook.cpp:362-465 | Removes the trader's own live orders within the limit, all or only the first, while levels disappear under the scan |
| OrderBook.OrderBook.MatchLoop | src/OrderBook.cpp:467-563 | The in-place loop over levels and queues is the greedy sweep of the flat list; trades are numbered consecutively; it terminates |
| OrderBook.OrderBook.MatchOrder | src/OrderBook.cpp:353-574 | FOK check, policy, loop and resting together: the new book, the trades and what is left are those of the flat match |
| OrderBook.OrderBook.ReplaceOrder | src/OrderBook.cpp:127-247 | Refused, removed, reduced in place, or matched anew at the back: the flat replace |
| OrderBook.TradesName | src/OrderBook.cpp:486-504 | Each trade names buyer and seller as the sides say, each with its trader, at the resting order's price, numbered in order |
| OrderBook.TradesAreValid | include/Trade.h:21-45 | The exceptions of the trade constructor are out of reach of the matching loop |
| MatchingEngine.MatchingEngine.TryNextPriority | include/MatchingEngine.h:128-150 | Through any number of spurious failures the exchange loop hands out the counter's value and advances it; the maximum is never handed out |
| MatchingEngine.MatchingEngine.SeedPriority | include/MatchingEngine.h:152-176 | Through any number of spurious failures the exchange loop sets the counter, and refuses exactly to move it backwards |
| PriorityCounter.NeverTwice | include/MatchingEngine.h:128-176 | However any number of exchange loops interleave, with any spurious failures: priorities are handed out strictly increasing, each at most once and never the maximum, the counter never moves backwards, and a claim is refused only at the maximum |
| PriorityCounter.SeedReached | include/MatchingEngine.h:152-176 | A seeding loop, successful or not, ends with the counter at or beyond the seeded value |
| PriorityCounter.AloneIsAtomic | include/MatchingEngine.h:128-150 | Without other threads, after any number of spurious failures, the claiming loop is one atomic step |
| PriorityCounter.SeedAloneIsAtomic | include/MatchingEngine.h:152-176 | So is the seeding loop, which moves the counter up to its value or leaves it |
| MatchingEngine.MatchingEngine.MarkReady | include/MatchingEngine.h:99-126 | Only a recovering engine becomes ready |
| MatchingEngine.MatchingEngine.ProcessOrder | src/MatchingEngine.cpp:41-116 | New state, published events, returned trades and the caller's order are those of the engine step, halted and unhealthy cases included |
| MatchingEngine.MatchingEngine.CancelOrder | src/MatchingEngine.cpp:118-145 | The same for a cancel and its answer |
| MatchingEngine.MatchingEngine.ReplaceOrder | src/MatchingEngine.cpp:147-258 | The same for a replace and its answer, trades and remainder |
| MatchingEngine.MatchingEngine.RestoreOrder | src/MatchingEngine.cpp:260-287 | Rests a journaled LIMIT order whose id is not in the book, or changes nothing |
| JournalRing.MaskIsMod | src/JournalRingBuffer.cpp:21-52 | Masking with a power of two less one is the remainder |
| JournalRing.WrapInvisible | src/JournalRingBuffer.cpp:21-89 | Because the capacity divides 2^64, wrapping counters never change a slot index |
| JournalRing.NeverOverwrites | src/JournalRingBuffer.cpp:21-52 | The slot being written is never that of an unread record |
| JournalRing.FullIsFull | src/JournalRingBuffer.cpp:34-42 | A push is refused exactly when every slot holds an unread record |
| JournalRing.EmptyIsEmpty | src/JournalRingBuffer.cpp:54-64 | A pop is refused exactly when every record pushed has been popped |
| JournalRing.PushAlone | src/JournalRingBuffer.cpp:21-52 | Undisturbed, a push of any record of one to 1088 bytes to a ring that is not full succeeds |
| JournalRing.PopAlone | src/JournalRingBuffer.cpp:54-89 | Undisturbed, a pop from a ring that is not empty gives its oldest record |
| JournalRing.SizeAlwaysValid | src/JournalRingBuffer.cpp:54-89 | The consumer never meets a record of invalid size |
| JournalRing.FirstInFirstOut | src/JournalRingBuffer.cpp:21-89 | In every interleaving, however often the counters wrap, the i-th record popped is byte for byte the i-th pushed |
| Journal.FileAlwaysPrefix | src/Journal.cpp:281-416 | In every interleaving of producer, writer, flusher, shutdown and I/O failure, the file is a byte prefix of what it held when opened and the offered records in order, and holds all that a flush has confirmed |
| Journal.FlushCovers | src/Journal.cpp:419-452 | A flush about to return true has every record queued when it began in the file |
| Journal.NothingDropped | src/Journal.cpp:469-600 | While the journal has neither failed nor been stopped, every record offered has been pushed, save the one in hand |
| FlushAnswers.WaitAnswers | src/Journal.cpp:419-429 | A wait ends exactly when the target is written or the journal has failed or stopped, and answers whether it is healthy and the target written |
| FlushAnswers.StartAnswers | src/Journal.cpp:431-443 | A flush with nothing to wait for answers at once whether the journal is healthy |
| FlushAnswers.FalseForAReason | src/Journal.cpp:419-452 | In every interleaving, a flush has returned false only if the journal has failed or been stopped |
| FlushAnswers.HealthyFlushSucceeds | src/Journal.cpp:357-452 | From every reachable healthy, running state in which nobody is failing, the threads already running bring a flush to answer true with all its records in the file |
| Shutdown.ShutdownEnds | src/Journal.cpp:232-253 | From every reachable state of a stopped or failed journal, the threads already running bring the writer to its end in at most a stated number of steps |
| Journal.NoLostWakeup | src/Journal.cpp:357-452 | A parked writer with work, and a parked flusher whose target is reached, are still owed a notification |
| Journal.CleanShutdown | src/Journal.cpp:232-253 | Once the writer has left a journal that has not failed, the file holds every record pushed, save at most one still in the ring, pushed by a producer already past its check |
| Journal.ParkedFlusherNotStuck | src/Journal.cpp:419-452 | While a flusher is parked some other thread can move |
| Journal.FlushCanReturn | src/Journal.cpp:357-452 | From every reachable state the threads already running bring a flush to its return, without new records, in at most a stated number of steps |
| RingQueue.StepIsQueue | src/JournalRingBuffer.cpp:21-89 | In every reachable state a step of the ring appends to a queue that is not full, removes the head of one that is not empty, or leaves the queue alone |
| RingQueue.PushRefines | src/Journal.cpp:289-313 | The producer's push, refused or done, is one step of the ring |
| RingQueue.PopRefines | src/Journal.cpp:357-416 | So is the writer's pop, with the head of the queue as the record |
| RingQueue.EmptyTest | src/JournalRingBuffer.cpp:91-97 | Comparing the wrapped counters decides whether the queue is empty |
| ConcurrentEngine.FullIff | src/RingBuffer.cpp:19-31 | The order ring reports full exactly when all but one slot hold waiting orders |
| ConcurrentEngine.EmptyIff | src/RingBuffer.cpp:46-48 | It reports empty exactly when everything accepted has been popped |
| ConcurrentEngine.FullOutcome | src/ConcurrentMatchingEngine.cpp:55-77 | With all but one slot taken, REJECT turns the order away, DROP counts it as dropped, BLOCK tries again |
| ConcurrentEngine.SubmissionsAccounted | src/ConcurrentMatchingEngine.cpp:49-78 | Each call was accepted, dropped, refused, too late, or is in progress; only DROP drops, only REJECT refuses, and a call is too late only after a stop |
| ConcurrentEngine.ProcessOneIsStep | src/ConcurrentMatchingEngine.cpp:84-99 | Processing one order is the engine's own step |
| ConcurrentEngine.DrainsInOrder | src/ConcurrentMatchingEngine.cpp:30-99 | At every moment the engine is what one thread would make of a prefix of the accepted orders; once the consumer has left after a stop that found no submission past its check, of all of them |
| ConcurrentEngine.StopDrainsIff | src/ConcurrentMatchingEngine.cpp:30-99 | From every reachable running state, every continuation of a stop in which the consumer leaves has processed everything accepted if and only if the stop finds no submission past its check |
| ConcurrentEngine.InFlightOrderLost | src/ConcurrentMatchingEngine.cpp:49-78 | The shortest instance: the first order of a new engine, caught between its check and its push |
| Risk.CanAddSigned | src/RiskEngine.cpp:85-90 | The guards refuse exactly the sums that do not fit in 64 bits |
| Risk.CanSubSigned | src/RiskEngine.cpp:92-97 | The guards refuse exactly the differences that do not fit in 64 bits |
| Risk.ReserveKeeps | src/RiskEngine.cpp:287-371 | A reservation keeps working totals equal to the sums of reservations |
| Risk.ReleaseKeeps | src/RiskEngine.cpp:373-476 | A fill or cancellation keeps them equal, leaves no flat entry, and cannot underflow |
| Risk.FillIs | src/RiskEngine.cpp:373-428 | An accepted fill moves the position by the signed quantity and releases as much, in that reservation and key alone; a refused one changes nothing |
| Risk.CancelIs | src/RiskEngine.cpp:430-476 | An accepted cancellation releases as much and leaves the position alone |
| Risk.RestingIs | src/RiskEngine.cpp:287-371 | A LIMIT order not yet tracked is reserved for what remains of it, on the live path within the limit |
| Risk.RunsConsistent | src/RiskEngine.cpp:287-524 | After every run, live, restored or mixed, totals equal sums and the missing-position and underflow failures are unreachable |
| Risk.ValidateAdmits | src/RiskEngine.cpp:157-208 | A validated order can rest in full within the limit, in exact arithmetic |
| Risk.ValidateIff | src/RiskEngine.cpp:157-208 | Validation accepts exactly the good orders, and names the reason otherwise: the 64-bit test is the exact one |
| Risk.ValidateReplaceIff | src/RiskEngine.cpp:210-281 | So does the validation of a replacement |
| Risk.ReplaceAdmits | src/RiskEngine.cpp:210-281 | So can a validated replacement once the old order is cancelled |
| Risk.PositionsBounded | src/RiskEngine.cpp:157-476 | In every state of every run, recorded position plus working buys and minus working sells stay within the limit, so the recorded position does, whichever resting orders fill in whatever order |
| Risk.NewPositionsBounded | src/RiskEngine.cpp:157-476 | The same for every run of a new engine |
| Risk.RecordedMisses | include/RiskEngine.h:50-65 | The recorded position is the executed one less exactly what the trader's incoming orders traded on entry |
| Risk.RecordedIff | include/RiskEngine.h:50-65 | Recorded and executed position agree throughout a run if and only if the trader was never the aggressor |
| Risk.ExecutedBounded | include/RiskEngine.h:50-65 | A trader who is never the aggressor stays within the limit in what is executed |
| Risk.TwoIocExample | include/RiskEngine.h:50-65 | Two IOC orders that execute twice the limit and leave no trace |
| Risk.ValidatedButCannotRest | src/RiskEngine.cpp:318-324 | A run from a new engine to a validated order that cannot rest |
| Risk.RestoredButCannotRest | src/RiskEngine.cpp:177-181 | A restart under a tighter limit to a validated order that cannot rest |
| Risk.CanRestIff | src/RiskEngine.cpp:287-371 | Exactly when what is left of a validated LIMIT order can rest, in any state, restored or live |
| RiskEngine.RiskEngine.SetMaxPosition | src/RiskEngine.cpp:25-36 | Keeps the order ceiling at or below the position ceiling; refuses limits beyond 63 bits |
| RiskEngine.RiskEngine.ValidateOrder | src/RiskEngine.cpp:157-208 | Decides validation with checked 64-bit arithmetic |
| RiskEngine.RiskEngine.ValidateAmend | src/RiskEngine.cpp:210-281 | Decides replace validation with checked 64-bit arithmetic |
| RiskEngine.RiskEngine.ApplyResting | src/RiskEngine.cpp:287-371 | Reserves both entries or changes nothing |
| RiskEngine.RiskEngine.ApplyFill | src/RiskEngine.cpp:373-428 | Moves the quantity from working total to position in both maps, or changes nothing |
| RiskEngine.RiskEngine.ApplyCancelled | src/RiskEngine.cpp:430-476 | Releases the quantity in both maps, or changes nothing |
| RiskEngine.RiskEngine.RestoreAccepted | src/RiskEngine.cpp:503-509 | The same without the limit; a refusal marks the engine corrupt |
| RiskEngine.RiskEngine.RestoreFill | src/RiskEngine.cpp:511-516 | A refused fill marks the engine corrupt |
| RiskEngine.RiskEngine.RestoreCancelled | src/RiskEngine.cpp:518-524 | A refused cancellation marks the engine corrupt |
| RiskEngine.RiskEngine.AlwaysCovered | src/RiskEngine.cpp:373-476 | In a consistent engine the only reasons to refuse a release are those about the reservation itself |
| RiskEngine.RiskEngine.CheckInvariant | src/RiskEngine.cpp:537-620 | The loops of the audit, with their 64-bit sums, decide its four conditions |
| RiskEngine.AuditExact | src/RiskEngine.cpp:537-620 | For any engine, however its maps came about, whose sums fit in 64 bits: the audit passes exactly when it is not corrupt, every resting order is reserved under its id with its trader, symbol, side and remaining quantity, nothing else is reserved, and every working total is the sum of its reservations |
| RiskEngine.AuditIff | src/RiskEngine.cpp:537-620 | For a consistent, uncorrupted engine and any book with unique ids, crossed or not, the audit passes exactly when reservations and resting orders correspond one to one, field by field |

## Left out

- Prices are integer ticks of 1e-6; floating-point rounding, NaN and infinity are not modelled. The symbol, reference
  price and price-band checks of the risk engine enter as one verdict, the parameter `market`.
- The clock is the parameter `now`, journal health the parameter `healthy`.
- An order pointer is a slot index. `OrderBook` is stated on levels of slot sequences; that levels of compacting queues
  do the same is `LevelQueues`.
- The live event sequence counter and the trade counter are unbounded. Theorems about runs assume the sequence stays
  below 2^64, where the program's counter has not wrapped either.
- Runs assume that an incoming id is not already resting, which the live path does not check.
- MatchingEngine.MatchingEngine.TryNextPriority: other threads do not interfere with the exchange loop here; that they
  may is `PriorityCounter`.
- MatchingEngine.MatchingEngine.SeedPriority: likewise.
- Threads take sequentially consistent steps.
- Several simultaneous flushers, `sync` and its policy, `fdatasync`, opening and locking files: the file is the bytes
  that `write` has accepted.
- Exceptions other than the order constructor's in `replay`, and memory exhaustion other than that of the pool.
- `setMaxOrderSize`, `setReferencePrice` and the other plain setters and getters.
- SymbolTable, the sharded engine's routing, TradeLogger, MarketDataPublisher, `printBook` and the benchmarks are not
  modelled.
- Restarting a stopped `ConcurrentMatchingEngine`.
- Risk.PositionsBounded: assumes a fixed limit of at most 2^63 - 2^32, room for one 32-bit quantity; beyond it the
  signed conversion of a working total can wrap.
- Risk.ValidateAdmits: for working totals below 2^63, beyond which that conversion wraps.
- Risk.ReplaceAdmits: likewise.
- Journal.FlushCanReturn: says that a flush can return, not that the scheduler lets it.
- ConcurrentEngine.DrainsInOrder: a processing call that throws is not modelled.
- Replay.ReplayConcat: the cut-off by an exception is the verdict `Threw`, at which the fold stops.
