# Order book path and SQL splitter of ticksense, in Dafny

This project models one market-data path of ticksense and proves what it keeps:

**Binance diff stream → local order book → Kafka → Flink dedup and book → book-ticker rows → replay**,

and, on its own, the SQL statement splitter of the Flink jobs. `dafny verify dfyconfig.toml` checks all of it.

| file | models |
|---|---|
| `books.dfy` | price levels, slots, diffs, snapshots, and how a diff changes a book |
| `exchange.dfy` | the exchange the protocol talks about: numbered level updates, their fold, faithful diffs |
| `orderbook.dfy` | the local book: snapshot, overlapping diffs, stale diffs, gaps (`OrderBook`) |
| `client.dfy` | one WebSocket session and the reconnect loop (`BinanceOrderBookClient`) |
| `logic.dfy` | dict-based book helpers: diffs, best quotes, top-N imbalance |
| `ohlcv.dfy` | the OHLCV and VWAP accumulator (`OHLCVState`) |
| `normalize.dfy` | the keyed Flink operator (`OrderBookProcessor`) |
| `pipeline.dfy` | exchange, local book and operator together |
| `consistency.dfy` | when the operator's book is right, for every exchange consistent with the diffs it accepted |
| `rows.dfy` | when an emitted row is true, and when its quotes are the exchange's best |
| `counterexamples.dfy` | concrete runs on which a documented promise fails |
| `iceberg.dfy`, `replay.dfy` | offset ranges, budgeted replay, and replay against the operator |
| `sqltext.dfy`, `sqlrunner.dfy`, `sqllaws.dfy`, `sqlplain.dfy` | Python string operations, the splitter, its laws, and what it does character by character |

The exchange is a sequence of atomic level updates numbered 1..N and `BookAt(ex, k)` is the fold of the first k. A diff `(U, u, levels)` is *faithful* when it lists exactly the slots touched by updates U..u, each with the quantity the exchange holds at u. Everything about the local book rests on one overlap lemma (`FaithfulDiffOverlap`), which needs nothing but `U - 1 <= m <= u` for the id `m` the book is at.

A `Decimal` is a decimal string together with the number `float()` reads from it; keys are compared as such strings, values as real numbers. Clocks, Kafka offsets, snapshot timing, socket failures and the contents of the Kafka logs and of the Iceberg scan are parameters.

## Where the code and its documentation differ

The model follows the code. Each difference is stated as a theorem that says exactly when the promise holds, and as a concrete input on which it does not.

- The client is documented to produce every valid diff (`client.py:29`), but diffs applied from the buffer are never sent, and a send that raises loses its diff. `EveryAppliedDiffProducedIff` gives the exact condition for sessions of every outcome, `BufferedDiffIsNotProduced` a successful session that loses a diff.
- The operator is documented to keep a full L2 book (`normalize.py:161`), but it never sees a snapshot. `FlinkBookIsFullIff` says when its book is the full one (every id from 1 on was covered, and it holds what was said last), `FullFromTheFirstUpdate` what that means for a run without missing ids (it must have received update 1), `StoredIsLastSaid` and `FlinkBookOfAnyRun` what the book holds after any run at all; `StoredBookIsNotFull` is a lossless session after which a bid is missing.
- The fields `best_bid` and `best_ask` (`normalize.py:168`) are the best of the stored book, which need not be the exchange's. `RowBestIff` and `RowBestIffCovered` say exactly when they are, `TrueRowIsNotBest` is a lossless session with a row whose bid is not the best.
- The operator does not check for missing ids, and the client's gap check does not make up for it: stale diffs are produced although the local book drops them. After a reconnect, or within one successful session, the operator's book can be wrong and a row can even be crossed (`CrossSessionRowCanBeCrossed`, `OneSessionRowCanBeCrossed`). `MissingGuardIsExact` shows that the guard it lacks, `first <= last_seen + 1`, is exact but for diffs that list every known slot. `SessionContiguousIff` and `SessionBookRightIff` say exactly what one session secures, `FlinkBookRightIff` and `RowTrueIff` for any run when its book and its rows can be relied on. These conditions are about the accepted diffs, late ones included, and the stored state only.
- A late event is dropped after its id has been recorded (`normalize.py:192` before 202-209). `LateDropExact` and `LateDropRightIff` say exactly when the book stays right, `LateDropCanHurt` is a run on which it does not. Sending the same record again cannot repair it, because it is then a duplicate (`ResendingIsInvisible`).
- A replay of a time window is documented to leave out a partition without a record in the window (`producer.py:86`), which it always does, and to replay the window, which it does only where timestamps follow the offsets closely enough. `TimeRangeIsExact` gives the exact condition, `OutOfOrderTimes` a log in which a record is missed and one in which a record too many is replayed.
- The splitter is documented to filter comment-only blocks. A block made of a block comment is kept, and a line comment that contains a line break other than a line feed can be kept too. `FilterIsExact` gives the exact condition, `DroppedIsCommentOnly` says that nothing else is dropped, and `FilterDiffersOnLineSeparator` is a comment that is returned as a statement.

## Model

| member | source | states |
|---|---|---|
| Books.DictOfAt | ingest/src/ingest/orderbook.py:32-33 | a snapshot side maps each price to the last quantity listed for it, zero quantities included |
| Books.LastQtyIsLast | ingest/src/ingest/orderbook.py:32-33 | the quantity that counts is that of the last entry with the price |
| Books.ApplyLevelsAt | ingest/src/ingest/orderbook.py:58-69 | after a diff, a listed price holds what its last entry says (nothing for zero) and an unlisted price what it held before |
| Books.ApplyDiffAt | ingest/src/ingest/orderbook.py:58-69 | a diff leaves unlisted slots alone and makes listed ones independent of the book before |
| Books.ApplyDiffSets | ingest/src/ingest/orderbook.py:58-69 | on each side the diff's own list decides: the last listed quantity, nothing when it is zero, and the old quantity when the price is not listed |
| Exchange.FaithfulDiffOverlap | ingest/src/ingest/orderbook.py:36-43 | a faithful diff applied to a book that is right at any id from U-1 to u gives a book that is right at u, on the same slots and all listed ones |
| OrderBooks.OrderBook.Initialize | ingest/src/ingest/orderbook.py:29-45 | the book and id that the snapshot's two lists say, then the run over the buffer: its state, and the buffered diff at which a gap is raised |
| OrderBooks.SnapshotIsLoaded | ingest/src/ingest/orderbook.py:30-33 | a run starts at the snapshot's id with the last quantity listed for each price on its side, bids from bids and asks from asks, and this determines the state |
| OrderBooks.OrderBook.Apply | ingest/src/ingest/orderbook.py:47-56 | a stale diff changes nothing, a gap is raised without a change, any other diff is applied |
| OrderBooks.OrderBook.ApplyEvent | ingest/src/ingest/orderbook.py:58-69 | the two loops change both sides as the diff prescribes and set the id |
| OrderBooks.SnapshotTimingDoesNotMatter | ingest/src/ingest/orderbook.py:35-56 | running a + b is running a and then b, same state, and the same diff raises: it does not matter which diffs were buffered and which came live |
| OrderBooks.LocalBookRefinesExchange | ingest/src/ingest/orderbook.py:29-69 | if the snapshot agrees with the exchange on a set of slots and all diffs are faithful, then at every moment the book agrees with the exchange at lastUpdateId on those slots and on every slot an applied diff lists |
| OrderBooks.UnlistedKeepsSnapshot | ingest/src/ingest/orderbook.py:29-69 | any other slot holds the last quantity the snapshot lists for it on its side |
| OrderBooks.SameIdSameBook | ingest/src/ingest/orderbook.py:29-56 | sessions with different full snapshots of one faithful stream that reached the same id hold the same book, the exchange's |
| OrderBooks.CutSessionIsExactPart | ingest/src/ingest/client.py:105-111 | with a snapshot cut to the best levels the book is the exchange's on the slots the cut covers and the listed ones, and empty elsewhere |
| OrderBooks.LocalBestIff | ingest/src/ingest/client.py:105-111 | the local best quotes are the exchange's exactly when one of the exchange's best slots is covered by the cut or listed by an applied diff |
| OrderBooks.NothingSkipped | ingest/src/ingest/orderbook.py:35-56 | every id between the snapshot and lastUpdateId lies in the range of an applied diff |
| OrderBooks.GapDetectionIsExact | ingest/src/ingest/orderbook.py:35-56 | a gap is raised at exactly the first diff that is newer while the next id is covered by nothing received so far |
| OrderBooks.LosslessStreamGapsIff | ingest/src/ingest/orderbook.py:35-56 | on a stream that loses nothing a gap is raised exactly when the first diff starts behind the snapshot's next id |
| Client.BinanceOrderBookClient.InitializeBook | ingest/src/ingest/client.py:79-103 | fails on a socket error, a failed snapshot or a gap in the buffer, otherwise leaves the book that the snapshot and the buffer give |
| Client.BufferElements | ingest/src/ingest/client.py:89-97 | the buffer holds the diff of every depth frame received before the snapshot, in order |
| Client.BinanceOrderBookClient.RunLive | ingest/src/ingest/client.py:68-77 | every parsed live diff up to the first gap or failing send is produced, in order, stale ones included, each as a record with exchange "binance", the client's symbol, the diff as it came and that frame's clock; the book follows, and the diff whose send raises is applied but not produced |
| Client.MessageElements | ingest/src/ingest/client.py:124-137 | every live depth frame makes one record, in order, with exchange "binance", the client's symbol, the frame's diff and its clock |
| Client.ProducedExactly | ingest/src/ingest/client.py:68-77 | record k is sent exactly when no live diff up to it raises a gap and no send up to it raises |
| Client.SessionSucceedsIff | ingest/src/ingest/client.py:59-103 | a session succeeds exactly when the socket stays up, the snapshot comes, the diffs received have no gap, no send raises and the socket closes cleanly |
| Client.BinanceOrderBookClient.RunOnce | ingest/src/ingest/client.py:59-77 | success, the produced records and the final book of one session; without a failing send the book depends only on the concatenation of buffer and live diffs |
| Client.BinanceOrderBookClient.RunForever | ingest/src/ingest/client.py:37-57 | the sleeps, the session whose exception is raised again, and everything produced, over any sequence of sessions and any retry limit |
| Client.EveryAppliedDiffProducedIff | ingest/src/ingest/client.py:84-103 | whatever ends the session, every applied diff is produced exactly when no buffered diff is newer than the snapshot and no send raises on a newer diff |
| Client.GivesUpExactly | ingest/src/ingest/client.py:39-57 | the loop raises at exactly the first failure that ends maxRetries + 1 consecutive ones; until then the counter is the length of the streak |
| Client.CurrentStreakSleeps | ingest/src/ingest/client.py:44-57 | the last sleeps taken are the backoffs of the failures of the current streak, in order |
| Client.AllSleeps | ingest/src/ingest/client.py:44-57 | the sleeps of the loop are those of the sessions before the one whose exception is raised again: a success and the raising failure sleep nothing |
| Client.SleepsStartAnew | ingest/src/ingest/client.py:41-57 | a success starts anew: the sleeps are those of all streaks, one after the other |
| Client.SleepsOfStreak | ingest/src/ingest/client.py:44-57 | k failures in a row sleep their k backoffs |
| Client.StreakSleepsGrow | ingest/src/ingest/client.py:45-57 | within a streak sleeps never shrink and none exceeds 60 seconds |
| Client.StreakSleepTotal | ingest/src/ingest/client.py:45-57 | k failures sleep at most 2^(k+1) - 2 and at most 60k seconds |
| Client.StreakSleepTotalExact | ingest/src/ingest/client.py:45-57 | the exact total for every k |
| Logic.DepthBook.ApplyDepthDiff | flink/jobs/flink_lib/logic.py:16-38 | both dicts are changed level by level, in list order, insertion order kept |
| Logic.PutKeepsPlaces | flink/jobs/flink_lib/logic.py:32 | assigning to a key keeps all keys in their places and puts a new one at the end |
| Logic.PopClosesGap | flink/jobs/flink_lib/logic.py:30 | popping a key removes its level and keeps the order of the others |
| Logic.ApplyDictRefines | flink/jobs/flink_lib/logic.py:27-38 | the dict-based diff is the book-based one: same content, keys stay unique |
| Logic.BestOf | flink/jobs/flink_lib/logic.py:41-54 | a level of the dict that no other level beats |
| Logic.SortIsSorted | flink/jobs/flink_lib/logic.py:71-72 | the sorted levels are a permutation, best price first |
| Logic.BestIsHeadOfSorted | flink/jobs/flink_lib/logic.py:41-72 | best bid and ask are the heads of the sorted lists, ties included |
| Logic.InsertionOrderInvisible | flink/jobs/flink_lib/logic.py:41-76 | with numerically distinct prices best quotes and imbalance depend on the content of the dicts only |
| Logic.ImbalanceInUnitInterval | flink/jobs/flink_lib/logic.py:65-76 | with non-negative quantities the imbalance lies in [0, 1] |
| Logic.ApplyDictPositive | flink/jobs/flink_lib/logic.py:27-38 | diffs without a negative quantity leave only positive quantities in a book |
| Logic.ImbalanceByRank | flink/jobs/flink_lib/logic.py:65-76 | the imbalance without sorting, from the levels with fewer than depth strictly better ones |
| Logic.PutBelowTop | flink/jobs/flink_lib/logic.py:31-72 | upserting a level with depth strictly better ones leaves the top alone |
| Logic.PopBelowTop | flink/jobs/flink_lib/logic.py:29-72 | deleting such a level leaves the top alone |
| Logic.DeepDiffKeepsImbalance | flink/jobs/flink_lib/logic.py:16-76 | a whole diff below the top of both sides does not change the imbalance |
| Ohlcv.OHLCVState.Update | flink/jobs/flink_lib/logic.py:105-115 | one tick changes all nine fields as the fold does |
| Ohlcv.FoldSummarizes | flink/jobs/flink_lib/logic.py:105-115 | open and close are first and last, count and both sums exact |
| Ohlcv.FoldExtremes | flink/jobs/flink_lib/logic.py:109-115 | high and low bound all mids and are attained; the last timestamp is the larger of 0 and the latest tick time |
| Ohlcv.VwapIsWeightedMean | flink/jobs/flink_lib/logic.py:117-119 | vwap times the sum of quantities is the sum of mid times quantity; without volume it is the last mid price |
| Ohlcv.VwapBetweenLowAndHigh | flink/jobs/flink_lib/logic.py:117-119 | low <= vwap <= high for non-negative quantities, zero volume included |
| Ohlcv.OrderOfTicksInvisible | flink/jobs/flink_lib/logic.py:105-119 | every field but open, close and first timestamp is invariant under reordering, and so is the vwap once there is volume |
| Ohlcv.FoldConcat | flink/jobs/flink_lib/logic.py:105-115 | the state after xs + ys is determined by the states after xs and ys |
| Normalize.OrderBookProcessor.ProcessElement | flink/jobs/normalize.py:180-252 | one event changes the keyed state and emits rows as the step function prescribes |
| Normalize.OneEvent | flink/jobs/normalize.py:180-222 | an id not above the recorded one changes nothing; a higher one is recorded, and more than 30,000 ms behind the wall clock nothing else happens, otherwise the diff is applied to the key's book and no other |
| Normalize.RowOfEvent | flink/jobs/normalize.py:224-252 | one row exactly for a new, timely event that leaves levels on both sides, with the event's ids, times and Kafka position, the best levels of the key's new book, their spread and mid price, and the imbalance of depth 5 |
| Normalize.KeyCollisions | flink/jobs/normalize.py:151-154 | two exchange and symbol pairs share a key exactly when they are equal or a '#' has moved between the names |
| Normalize.KeyInjective | flink/jobs/normalize.py:151-154 | exchange names without '#' make the key injective |
| Normalize.KeyedIsolation | flink/jobs/normalize.py:174-192 | each key's rows and state are those of running its own events alone |
| Normalize.CrossKeyOrderInvisible | flink/jobs/normalize.py:329-331 | reordering across keys changes neither the state nor any key's rows |
| Normalize.StoredIdIsHighest | flink/jobs/normalize.py:188-192 | the stored id is the highest received, late events included |
| Normalize.RowIdsIncrease | flink/jobs/normalize.py:188-252 | a key's rows carry strictly increasing update ids, none seen before |
| Normalize.DedupIsErasure | flink/jobs/normalize.py:188-192 | a stream gives the same rows and state as its records, the events newer than all before them |
| Normalize.ResendingIsInvisible | flink/jobs/normalize.py:188-192 | inserting already seen events anywhere, in any order and multiplicity, changes neither rows nor state |
| Normalize.EveryRowIsPositive | flink/jobs/normalize.py:211-252 | on a stream without negative quantities every row of every key quotes positive quantities and has its imbalance strictly between 0 and 1 |
| Pipeline.FlinkBookIsExactPart | flink/jobs/normalize.py:188-222 | with contiguous, timely, faithful accepted diffs the stored book is the exchange's at the stored id, restricted to the listed slots |
| Pipeline.EveryRowIsTrue | flink/jobs/normalize.py:224-252 | under the same conditions every row quotes exchange levels, the best of all slots listed so far, its mid lies half a spread from both quotes, and the spread is positive whenever the exchange's book is not crossed |
| Pipeline.FlinkBookOfAnyRun | flink/jobs/normalize.py:180-222 | after any run, with gaps, late events and duplicates, each slot holds what the exchange held at the last id of the latest effective diff that listed it |
| Pipeline.ProducedUnderOneKey | flink/jobs/normalize.py:151-154 | everything a client sends comes under the key "binance#" and its symbol |
| Pipeline.SessionCoupling | ingest/src/ingest/client.py:59-103 | over one session, however it ends, the operator's id never exceeds the local one, equals it after the first new live diff, and both books agree on the slots of such diffs; the local book is taken after the last diff sent |
| Pipeline.SessionContiguousIff | ingest/src/ingest/client.py:59-103 | whatever its stream loses, a session leaves no gap between the operator's accepted diffs exactly when there is none up to the id at which the live phase began |
| Pipeline.SessionEndToEnd | ingest/src/ingest/client.py:59-103 | under that condition, however the session ends, the operator's book is an exact part of the exchange's and every row is true and the best of what was listed |
| Pipeline.LosslessIsContiguous | ingest/src/ingest/client.py:59-103 | a stream that loses nothing meets the condition |
| Consistency.SkippedIdCanHurt | flink/jobs/normalize.py:188-222 | when an accepted diff skips an id and leaves a known slot out, an exchange with the same past, consistent with the diff, makes the book wrong |
| Consistency.MissingGuardIsExact | flink/jobs/normalize.py:188-222 | after an accepted diff the book is right for every consistent exchange exactly when the diff starts at most one past the stored id or lists every known slot |
| Consistency.LateDropExact | flink/jobs/normalize.py:188-209 | a late diff that continues the stored id leaves the book right at its id exactly when every known slot it lists already holds what it says |
| Consistency.LateDropRightIff | flink/jobs/normalize.py:188-209 | for every consistent exchange, missing ids included: exactly when that holds and the diff starts at most one past the stored id or lists every known slot |
| Consistency.StoredIsLastSaid | flink/jobs/normalize.py:180-222 | after any run, of any diffs, the stored book holds at each slot what the latest diff that reached it said |
| Consistency.FlinkBookRightIff | flink/jobs/normalize.py:180-222 | after any run the book is right at an id, for every exchange consistent with all accepted diffs, late ones included, exactly when for each of its slots no id is missing since the last listing and the book holds what that listing said |
| Consistency.SessionBookRightIff | ingest/src/ingest/client.py:59-103 | after one session it is right exactly when no id up to the start of the live phase is missing since a slot was last listed |
| Consistency.FlinkBookIsFullIff | flink/jobs/normalize.py:157-222 | after any run the book is the full book at an id, for every exchange consistent with all accepted diffs, exactly when every id from 1 to it was covered and the book holds what was said last |
| Consistency.FullFromTheFirstUpdate | flink/jobs/normalize.py:157-222 | when the accepted diffs are timely and contiguous it is the full book exactly when one of them starts at id 1 |
| Rows.RowIsEmitted | flink/jobs/normalize.py:224-252 | each row of a run is the row of the last event of one of its beginnings |
| Rows.RowTrueIff | flink/jobs/normalize.py:224-252 | a row of any run is true, for every exchange consistent with all accepted diffs, exactly when for both quotes no id is missing between the last listing and the row, and that listing says what is quoted |
| Rows.RowBestIff | flink/jobs/normalize.py:224-252 | the quotes of a row are the exchange's best, for every such exchange, exactly when every id from 1 to the row's was covered and the quotes are the best of what was said last |
| Rows.RowBestIffCovered | flink/jobs/normalize.py:224-252 | without late events, exactly when every id from 1 to the row's was covered |
| Counterexamples.BufferedDiffIsNotProduced | ingest/src/ingest/client.py:84-103 | a successful session that applies a diff and never produces it |
| Counterexamples.StoredBookIsNotFull | flink/jobs/normalize.py:161-222 | a lossless session whose local book is the exchange's while the operator's book lacks a bid |
| Counterexamples.TrueRowIsNotBest | flink/jobs/normalize.py:161-252 | a lossless session and a true row of it whose best bid is not the exchange's |
| Counterexamples.LateDropCanHurt | flink/jobs/normalize.py:188-209 | a late deletion after which the stored book keeps a bid the exchange has deleted |
| Counterexamples.CrossSessionRowCanBeCrossed | ingest/src/ingest/client.py:37-103 | two successful sessions after which the operator emits a row with a negative spread although the exchange was never crossed |
| Counterexamples.OneSessionRowCanBeCrossed | ingest/src/ingest/client.py:59-77 | one successful session, with a stale diff and a frame that cannot be parsed, after which the operator emits such a row |
| Counterexamples.OutOfOrderTimes | replay/src/replay/producer.py:119-143 | a log in which a record of the window is not selected, and one in which a record from outside it is |
| Iceberg.GroupRows | replay/src/replay/iceberg_reader.py:143-147 | the offsets of valid rows, collected per partition |
| Iceberg.ReadOffsetRange | replay/src/replay/iceberg_reader.py:112-163 | one tight range per partition with a valid row, strictly sorted, both ends attained; nothing on an error |
| Iceberg.RangesHoldRows | replay/src/replay/iceberg_reader.py:142-156 | every row with neither field -1 lies in the range of its partition, and both ends of a range are offsets of such rows |
| Iceberg.FirstRecordCounts | replay/src/replay/iceberg_reader.py:142-156 | partition 0 with offset 0 is a record like any other |
| Iceberg.TightHullUnique | replay/src/replay/iceberg_reader.py:149-156 | the rows determine the ranges |
| Iceberg.EmptyIffNoValidRow | replay/src/replay/iceberg_reader.py:124-147 | the result is empty exactly when no row is valid |
| Replay.KafkaTimeOffsetRanges | replay/src/replay/producer.py:96-151 | the ranges of all partitions, in order |
| Replay.TimeRangeIsExact | replay/src/replay/producer.py:119-143 | for every log the range selects exactly the records in [start, end) if and only if none of them comes behind a record past the window, and no record from before it comes behind a later one unless one past the window comes first; a partition without a record in the window is always absent |
| Replay.NondecreasingInOrder | replay/src/replay/producer.py:119-143 | it holds for every window when timestamps are nondecreasing |
| Replay.TimeRangesSelectWindow | replay/src/replay/producer.py:118-151 | the ranges together select exactly the window, partition after partition, if and only if that holds in each partition |
| Replay.ReplayPartition | replay/src/replay/producer.py:157-229 | reads the first max(budget, 0) records of the range; a live run sends exactly those, a dry run nothing |
| Replay.BudgetIsPrefix | replay/src/replay/producer.py:203-205 | a budget takes the first records, as many as it and the records allow |
| Replay.SelectedInOrder | replay/src/replay/producer.py:193-229 | what is read from a range comes in the order of the log |
| Replay.ReplayRanges | replay/src/replay/producer.py:300-316 | across partitions the budget takes exactly the first max(budget, 0) selected records, and the visited partitions are the shortest prefix that uses it up |
| Replay.PartitionsAt | replay/src/replay/producer.py:316 | the statistics name the partition of each visited range, in order |
| Replay.ResolveRanges | replay/src/replay/producer.py:270-281 | Iceberg ranges when a row is valid, otherwise the time window |
| Replay.RunReplay | replay/src/replay/producer.py:235-330 | the whole run: ranges, records read, statistics, and that a live run sends exactly these records and a dry run none; a live run whose producer does not start raises with nothing read or sent |
| Replay.IcebergRangesCoverRows | replay/src/replay/iceberg_reader.py:142-156 | the ranges select the record behind every valid row |
| Replay.IcebergSelects | replay/src/replay/iceberg_reader.py:142-156 | the ranges select exactly the records between two valid rows of their partition, other symbols and records without a row included |
| Replay.LiveReplayIsIdempotent | replay/src/replay/producer.py:14-24 | replayed records mixed into the stream in any way change neither the rows nor the state of an operator that processed them before |
| SqlText.Find | flink/jobs/flink_lib/sql_runner.py:52-62 | the first occurrence at or after the start, or -1 when there is none |
| SqlRunner.ScanString | flink/jobs/flink_lib/sql_runner.py:71-79 | the string loop ends at the closing quote, past doubled ones, or at the end of the text |
| SqlRunner.ScanComment | flink/jobs/flink_lib/sql_runner.py:50-68 | a comment is skipped to its end, or the text ends in it |
| SqlRunner.ScanToken | flink/jobs/flink_lib/sql_runner.py:48-79 | one step keeps the scanner where the automaton is |
| SqlRunner.SplitStatements | flink/jobs/flink_lib/sql_runner.py:34-102 | the skip-ahead scanner returns what the one-character automaton prescribes, for every text |
| SqlLaws.CutsAreExact | flink/jobs/flink_lib/sql_runner.py:47-94 | a ';' is a delimiter exactly when the automaton is in ordinary text there, and the pieces joined by ';' are the input |
| SqlLaws.ResplitRoundTrip | flink/jobs/flink_lib/sql_runner.py:34-102 | joining the statements with "\n;\n" and splitting again gives the same statements, for every text |
| SqlLaws.FilterIsExact | flink/jobs/flink_lib/sql_runner.py:82-100 | the line-based filter drops a block exactly when it is white space and comments from "--" to the next of any of Python's line breaks, for every text |
| SqlLaws.DroppedIsCommentOnly | flink/jobs/flink_lib/sql_runner.py:50-100 | what the filter drops is white space and line comments for the scanner too, for every text |
| SqlLaws.FilterIsTokenBased | flink/jobs/flink_lib/sql_runner.py:82-100 | with line feeds only, a block is dropped exactly when it is white space and line comments |
| SqlLaws.QuotedTextIsKept | flink/jobs/flink_lib/sql_runner.py:82-100 | a block that contains any string literal or block comment is kept |
| SqlLaws.FilterDiffersOnLineSeparator | flink/jobs/flink_lib/sql_runner.py:82-100 | a comment with a Unicode line separator inside is kept as a statement |
| SqlPlain.StatementsAreMiddles | flink/jobs/flink_lib/sql_runner.py:82-102 | what is returned is every piece between delimiters that is more than white space and comments, in order, without the white space (by code point) at its ends and with everything else |
| SqlPlain.VisibleIsKept | flink/jobs/flink_lib/sql_runner.py:82-102 | no visible ASCII character is stripped |
| SqlPlain.PlainTextIsOrdinary | flink/jobs/flink_lib/sql_runner.py:47-94 | text without a quote, "--" or "/*" is ordinary |
| SqlPlain.QuoteOpensLiteral | flink/jobs/flink_lib/sql_runner.py:70-79 | behind ordinary text a quote opens a literal, which the next quote ends, a doubled one opening it again |
| SqlPlain.DashesOpenComment | flink/jobs/flink_lib/sql_runner.py:50-59 | behind ordinary text "--" opens a comment, which the next line feed ends |
| SqlPlain.MarkOpensBlock | flink/jobs/flink_lib/sql_runner.py:60-68 | behind ordinary text "/*" opens a comment, which the next "*/" ends |
| SqlPlain.BreaksEndComments | flink/jobs/flink_lib/sql_runner.py:82-100 | exactly ten characters make the text behind them a new line for the filter |
| SqlPlain.ExampleSplits | flink/jobs/flink_lib/sql_runner.py:34-102 | a statement with white space around it and a comment behind it gives that statement alone |

## Left out

- Floating point: prices, quantities and sleeps are real numbers, so rounding, infinities and NaN are not modelled; a text `float()` rejects is no `Decimal`.
- JSON, Pydantic and timestamps: encoding the book state and the records is the identity, event times are integers in milliseconds, `event_id` is not kept.
- Client.BinanceOrderBookClient.RunForever: the source loops forever; the statement covers every finite part of its life. The symbol is taken as already lower-cased.
- Replay.ReplayPartition: a log is finite and read as one sequence; seeking outside the retained offsets (`auto_offset_reset`) and waiting at the end of a live topic are not modelled. The `symbol_filter` argument is unused by the code and absent here.
- Replay.RunReplay: `replay/src/replay/producer.py:293` passes the target topic as the broker address, so the producer of a live run is not expected to start. Whether it does is a parameter here; what is said about records sent by a live run assumes the address corrected.
- Rows.RowTrueIff: the exchange is taken to write each price in one way; otherwise a level under another text of the same number could make the row true.
- Replay.TimeRangeIsExact: `offsets_for_times` is the first record at or after the timestamp; offsets are below Kafka's largest.
- SqlRunner.SplitStatements: the pieces of the current statement are one string instead of a list that is joined; the scanner's branches are split over three methods.
- Flink state expiry, checkpoints, watermarks and the table bridge; Kafka delivery beyond per-partition order.
- `ingest/src/ingest/producer.py` (serialization, dead letter queue), `flink/jobs/cdc_symbol_config.py`, `flink/jobs/ohlcv_1m.py`, `api/`, `airflow/`, `spark/`, `dbt/`: plumbing, SQL that runs elsewhere, or members that would only be easy.
