# PROCLUSTER: a verified model of the trade pipeline and its subscription protocol

PROCLUSTER turns a stream of exchange trades into cluster candles, cells of traded volume per price bin
and side, and pushes them to browser charts over a WebSocket. This Dafny project models the parts whose
behaviour is hardest to see from the code and proves what they are relied on for.

- **Trades to cells.** `Trades`, `Binning`, `Rounding`, `Cells`, `Snapshots`, `Aggregation`, `Merging`:
  deduplication and gap detection, floor binning, the digit-string rounding, the live aggregator as a
  class with a ghost log of the trades it stands for, and the merge into coarser bins.
- **Where trades come from.** `GapFilling`, `StreamIngest`, `StreamRuns`, `Timeframes`, `History`: paging
  a gap out of an exchange, replaying it, feeding all timeframes, whole runs of messages, and the
  history loader with one aggregator per candle and timeframe.
- **Where cells go.** `RedisCells`, `LiveCandles`, `LiveAgreement`, `Decimals`, `QueryCandles`,
  `StoredCandles`, `Broadcast`: the per-trade read-modify-write of "bid,ask" strings, what is read back
  from them and when that agrees with the aggregator, the decimal columns of the store, grouping stored rows into candles, the way from a day
  of trades through the store back to candles, and the cells sent to subscribers.
- **The subscription protocol.** `SubKeys`, `HubSpec`, `Hub`, `Subscriptions`, `Resubscription`,
  `WsClient`, `Protocol`, `Recovery`: the printed and parsed keys, the hub's two-way index, the browser's
  client, and a transition system of both with FIFO connections that can be cut at any moment.
- **Kernels.** `ValueArea`, `VolumeProfile`, `OrderMatching`, `LogBuffer`. `Digits`, `Sequences` and
  `Sorting` hold what several of them share.

Prices, tick sizes and bin widths are integers in one fixed fine unit; quantities, volumes and cash are
exact reals. Methods follow the imperative code they model and are tied to specification functions,
about which the lemmas then speak.

## Main results

1. In every reachable state with an open socket, replaying the messages in flight over the server's keys
   gives exactly the browser's active subscriptions (`Protocol.OpenConnectionIsSynchronised`), for any
   number of cuts, reopens and foreign clients; `Resubscription.ReopenRestoresIff` says exactly when a
   reopened connection gets everything back, `Protocol.SettledClosesAreExact` who hears of a close, and
   from every reachable state there is a way back to a settled connection (`Recovery.AlwaysRecovers`).
2. Merging base cells refines direct coarse binning within 0.05 per base cell, is exact on whole tenths,
   composes and conserves volume (`Merging.MergeRefinesDirect`, `MergeIsDirect`, `MergesCompose`).
3. The live path and the history path agree cell by cell for any arrival order
   (`History.LiveEqualsHistory`). Through the decimal columns of the store a candle's cells come back
   unchanged exactly when its bins lie on multiples of 0.1 (`StoredCandles.HistoryComesBackIff`).
4. Seen IDs and reported gaps cover the whole ID interval (`Trades.UnseenIdHasOneGap`), and after a run
   the cells are those of the gap-free stream unless a request for missing trades got no batch
   (`StreamRuns.ProcessMessages`, `GapFreeCellsIff`).
5. The digit-string rounding is arithmetic rounding exactly where its integer part fits
   (`Rounding.RoundHalfUp`).
6. The value area by descending volume is minimal (`ValueArea.ValueAreaIsMinimalIff`), and the grown one
   takes the larger neighbour each time and stops in time (`VolumeProfile.TakenBelow`, `TakenAbove`,
   `ExpandStopsInTime`).
7. Running rounding in Redis drifts by at most 0.05 per trade, so for bins on tenths the cells read back
   are near the exact volumes bin by bin and side by side, and the aggregator's own when quantities are
   whole tenths (`RedisCells.Drift`, `LiveCandles.CellsPerBin`, `CellsAreAggregator`). Apart from rounding
   the hash agrees with the aggregator exactly when no ID repeats and no replay adds anything
   (`LiveAgreement.HashAgreesIffDistinct`, `MessageKeepsAgreementIff`).

## Where the code falls short of what one would expect

Each of these is a statement in the project, with the exact condition where there is one.

- The store keeps one decimal. An open or close such as 64000.37 comes back as 64000.4, a price below
  0.05 is replaced by the low or the high, and bin prices that are no multiples of 0.1 are shortened
  (`StoredCandles.HistoryComesBackIff`, `Decimals.SpotPriceIsShortened`). Bins narrower than 0.1 meet at
  one stored price, and cells are lost when the table replaces rows with equal keys
  (`StoredCandles.ReplacedCandleKeepsAllIff`, `NarrowBinsAreNotKeptApart`).
- `round1` in the store and the hub truncates after adding 0.5, so it is one tenth too high for every
  value of -0.05 or less; candle deltas often are (`Rounding.StoreRoundAgreesIff`).
- Unsubscribing a subscription made with compression 0 removes nothing, unless the base compression is
  zero itself (`Subscriptions.UnsubscribeUndoesIff`, `ZeroCompressionStays`).
- `parseSubKey` panics on keys with exactly two colons (`SubKeys.PanicIffTwoColons`); keys the hub prints
  parse back (`Protocol.ReachedIndex`).
- Redis fields have one decimal: bins narrower than 0.1 share fields (`RedisCells.NarrowBinsCollide`),
  and a bin price that is no multiple of 0.1 reads back as another price (`RedisCells.PriceSurvivesIff`).
- The receive loop adds a repeated trade to Redis again although the aggregator drops it
  (`LiveAgreement.HashAgreesIffDistinct`), and trades replayed from a gap never reach Redis
  (`LiveAgreement.MessageKeepsAgreementIff`).
- Trades that arrive late from before the first one of a stream enter the candle, but nothing fetches
  what lies between (`StreamRuns.GapFreeCellsIff`).
- The order simulator credits a closed long with its profit twice and never credits an opened short
  (`OrderMatching.LongRoundTripDoublesProfit`, `ShortRoundTripPaysForTheCover`).
- With a target of zero or less the value area still takes one cell (`ValueArea.ValueAreaIsMinimalIff`).
- `MEMORY.md` line 48 gives 0.85 rounded as 0.8; the code, its comment and `docs/01_DATA_MODEL.md` give
  0.9, and the model follows the code (`Rounding.NotedExamples`).

## Model

| member | source | states |
|---|---|---|
| `Aggregation.Aggregator.constructor` | backend/internal/aggregate/aggregator.go:62-73 | A new aggregator stands for no trades and has reported no gaps |
| `Aggregation.Aggregator.ProcessTrade` | backend/internal/aggregate/aggregator.go:77-122 | A seen ID changes nothing; any other trade is added to the log the aggregator stands for. A gap is reported exactly when the ID jumps past a positive last ID, it is the skipped range, and no ID in it was seen. The invariant it keeps: cells are the exact per-bin sums of the log, `seen` is its IDs, and seen IDs plus reported gaps cover everything from the first ID to the last |
| `Aggregation.Aggregator.Accumulate` | backend/internal/aggregate/aggregator.go:98-112 | One trade adds its quantity to the bid or the ask of its bin, never to both, creating the bin when it is the first there |
| `Aggregation.Aggregator.Flush` | backend/internal/aggregate/aggregator.go:126-143 | Returns one cell per price interval of the bin width that holds a logged trade, ascending, with the rounded quantities of the buyer-maker trades (bid) and of the others (ask) in the interval; then starts over with an empty log |
| `Aggregation.Aggregator.Cells` | backend/internal/aggregate/aggregator.go:146-159 | The same snapshot without forgetting anything |
| `Aggregation.Aggregator.OpenPrice` | backend/internal/aggregate/aggregator.go:162-164 | The price of the first trade kept since construction, across flushes |
| `Aggregation.Aggregator.ClosePrice` | backend/internal/aggregate/aggregator.go:167-169 | The price of the last trade kept since construction, across flushes |
| `Aggregation.AccountsStep` | backend/internal/aggregate/aggregator.go:77-122 | Adding one new trade to its bin keeps cells equal to the aggregation of the log and keeps gap coverage |
| `Aggregation.ProcessAll` | backend/internal/ingest/ws_client.go:203-205 | Feeding a batch keeps exactly the trades with new IDs; a batch below the last ID reports no gap |
| `Aggregation.MergeCells` | backend/internal/aggregate/aggregator.go:173-203 | The result is the snapshot of the exact regrouping of the base cells into bins groupSize base bins wide; nothing when there are no cells or no group size |
| `Snapshots.Snapshot` | backend/internal/aggregate/aggregator.go:127-137 | Reading a cell map in any order, rounding and sorting gives its one snapshot: every bin once, strictly ascending, each side rounded |
| `Cells.SnapshotUnique` | backend/internal/aggregate/aggregator.go:127-137 | A snapshot is determined by the cell map: the map iteration order and the unstable sort cannot show |
| `Cells.SnapshotLists` | backend/internal/aggregate/aggregator.go:127-137 | A snapshot is one cell per occupied interval of the bin width, ascending, each side the rounded volume inside the interval |
| `Aggregation.SnapshotListsTrades` | backend/internal/aggregate/aggregator.go:98-112 | The same said of trades: one cell per interval with a trade, bid and ask the rounded quantities of the buyer-maker trades and the others in it |
| `Cells.GroupAppend` | backend/internal/aggregate/aggregator.go:98-112 | Adding a contribution to its bin in a map is regrouping all contributions from scratch |
| `Cells.GroupOfPermutation` | backend/internal/aggregate/aggregator.go:77-122 | The cells do not depend on the order of the contributions |
| `Sorting.Sort` | backend/internal/aggregate/aggregator.go:135-137 | The contract of sort.Slice the other proofs use: ascending keys, same elements, no promise about equal keys |
| `Trades.UnseenIdHasOneGap` | backend/internal/aggregate/aggregator.go:84-96 | Between the first trade and the last ID, every ID that was not seen lies in exactly one reported gap |
| `Trades.CoverageStep` | backend/internal/aggregate/aggregator.go:84-96 | One more trade, in or out of order, keeps seen IDs and gaps covering the whole interval and the gaps disjoint |
| `Trades.FilledGapsLeaveNoHole` | backend/internal/aggregate/aggregator.go:84-96 | Once every reported gap has been filled, no ID is missing from the interval |
| `Trades.KeptIds` | backend/internal/aggregate/aggregator.go:79-82 | Deduplication loses no ID and keeps each once, over any arrivals with any repetitions |
| `Trades.SameIdsSameTrades` | backend/internal/aggregate/aggregator.go:79-82 | Where an ID always means the same trade, two deduplicated streams with the same IDs hold the same trades |
| `Trades.SidesOfTrades` | backend/internal/aggregate/aggregator.go:98-112 | Buyer-maker trades are the bid of a price range and all others its ask, and nothing else is |
| `Binning.BinPriceLow` | backend/internal/aggregate/binning.go:5-12 | The bin boundary is at or below the price and less than one bin width below it |
| `Binning.BinUnique` | backend/internal/aggregate/binning.go:9-12 | A bin holds exactly the prices from its boundary to the next one |
| `Binning.NestedBins` | backend/internal/aggregate/binning.go:9-12 | Floors nest: binning a bin price at g times the width is binning the price itself at that width |
| `Binning.BinPriceLowIs` | backend/internal/aggregate/binning.go:5-12 | The boundary is the one multiple of compression times tick size that is at or below the price and less than that width below it |
| `Rounding.RoundHalfUp` | backend/internal/aggregate/rounding.go:16-50 | The digit-string algorithm with its carry computes half-away-from-zero rounding to tenths for every finite decimal, if and only if the value is already in tenths or its rounded magnitude fits in an int64 |
| `Rounding.DigitsDecideRounding` | backend/internal/aggregate/rounding.go:35-49 | The first two digits after the point decide the rounded value, however many follow |
| `Rounding.CarryDecides` | backend/internal/aggregate/rounding.go:38-49 | Carrying a tenth of ten into the integer part gives the rounded value exactly while that part fits in an int64 |
| `Rounding.RoundWithin` | backend/internal/aggregate/rounding.go:8-15 | Rounding moves a value by at most 0.05 and gives a whole number of tenths |
| `Rounding.RoundExact` | backend/internal/aggregate/rounding.go:8-15 | Rounding changes nothing exactly for whole tenths |
| `Rounding.RoundIdempotent` | backend/internal/aggregate/rounding.go:8-15 | Rounding twice is rounding once |
| `Rounding.RoundMonotone` | backend/internal/aggregate/rounding.go:8-15 | Rounding keeps order |
| `Rounding.NearestTenthIff` | backend/internal/aggregate/rounding.go:8-15 | The rounded value is the nearest tenth, of two equally near the one farther from zero, and nothing else is |
| `Rounding.NotedExamples` | MEMORY.md:48 | Of the three examples noted there, 5.1256 and 0.0125 round as noted; 0.85 rounds to 0.9 |
| `Rounding.ApiRoundAgrees` | backend/internal/api/handlers.go:253-255 | The API's round1 is the same function |
| `Rounding.StoreRoundAgreesIff` | backend/internal/store/query.go:173-175 | The truncating round1 agrees with RoundHalfUp if and only if the value is above -0.05; otherwise it is one tenth too high |
| `Rounding.StoreRoundMeans` | backend/internal/store/query.go:173-175 | From -0.05 up it is the nearest tenth with halves upward; below, one tenth more than the nearest, halves excepted |
| `Decimals.ToDecimalIsRoundTenth` | backend/internal/store/clickhouse.go:193-195 | Rounding a price in units is the rounding of quantities applied to the price they stand for |
| `Decimals.ToDecimalExactIff` | backend/internal/store/clickhouse.go:193-195 | A price survives one decimal if and only if it is a multiple of 0.1 |
| `Decimals.SpotPriceIsShortened` | backend/internal/store/clickhouse.go:193-195 | A trade at 64000.37 is stored at 64000.4 |
| `Decimals.WideBinsStayApart` | backend/internal/store/clickhouse.go:193-195 | Bins at least 0.1 wide keep distinct stored prices, in order |
| `Decimals.NarrowBinsMeet` | backend/internal/store/clickhouse.go:193-195 | For every width below 0.1 two neighbouring bins are stored at one price |
| `Decimals.GridOnTenthsIff` | backend/internal/aggregate/binning.go:9-12 | All bin prices are multiples of 0.1 if and only if the bin width is |
| `Merging.MergeRefinesDirect` | backend/internal/aggregate/aggregator.go:171-203 | A merged cell sits in a bin the trades occupy at the coarse width, and each side differs from the exact sum there by at most 0.05 per base cell merged, of which there are at most g |
| `Merging.MergedBins` | backend/internal/aggregate/aggregator.go:171-203 | Merging occupies exactly the bins that direct coarse binning occupies |
| `Merging.MergedCount` | backend/internal/aggregate/aggregator.go:171-203 | A coarse bin draws on at most g base cells |
| `Merging.Partition` | backend/internal/aggregate/aggregator.go:98-112 | The exact volume of a region is the sum over the bins inside it: bins partition volume |
| `Merging.MergeIsDirect` | backend/internal/aggregate/aggregator.go:171-203 | With quantities in whole tenths, merging flushed cells equals aggregating the trades at the coarse width |
| `Merging.MergeConservesVolume` | backend/internal/aggregate/aggregator.go:173-203 | With whole tenths, total bid and total ask survive a flush or a merge |
| `Merging.MergesCompose` | backend/internal/aggregate/aggregator.go:173-203 | Merging by g1 and the result by g2 gives the same list as merging once by g1*g2 |
| `Merging.MergesOfFlushedCompose` | backend/internal/aggregate/aggregator.go:171-203 | From a flush on, merging twice is merging once whatever the traded quantities were, because flushed and merged cells are in tenths |
| `GapFilling.FetchWithRetries` | backend/internal/ingest/binance.go:311-331 | At most four requests; a retry follows a rate limit only, and a persistent limit uses all four |
| `GapFilling.TakeBatch` | backend/internal/ingest/binance.go:339-345 | Exactly the leading trades of a batch up to the end are appended, the next request starts after the last of them, and a trade beyond the end stops the fill |
| `GapFilling.TakenFromExchange` | backend/internal/ingest/binance.go:339-345 | Taken from a faithful batch, they are the exchange's next trades, and all up to the end once one lies beyond it |
| `GapFilling.FillGap` | backend/internal/ingest/binance.go:299-349 | For any oracle with ascending batches at or above the requested ID it terminates with ascending trades in [start, end]; for one faithful to an exchange they are all of the exchange's trades there, unless a request failed, and then nothing is returned, or a rate limit persisted, and then they are all the exchange's trades up to the ID that request asked for |
| `GapFilling.FaithfulIsOrdered` | backend/internal/ingest/binance.go:299-349 | An oracle faithful to an ascending exchange has ascending batches at or above the requested ID |
| `GapFilling.BetweenIds` | backend/internal/ingest/binance.go:297-349 | The trades of a filled range are exactly those with IDs in it |
| `StreamIngest.HandleTrade` | backend/internal/ingest/ws_client.go:191-208 | The log becomes the old one with the trade and all the exchange has in the gap it opened; less than that only when a request of this call got no batch, nothing when it failed and the trades up to it when it was rate limited; when the fill was complete no hole is left if there was none before |
| `StreamIngest.Replay` | backend/internal/ingest/ws_client.go:197-205 | A replayed fill adds exactly the fetched trades with new IDs; it is complete unless the request it names got no batch |
| `StreamIngest.FillClosesHole` | backend/internal/ingest/ws_client.go:197-205 | A completely filled gap closes the hole its trade opened |
| `StreamIngest.GapFreeCells` | backend/internal/ingest/ws_client.go:191-208 | A log without holes aggregates to the cells of the exchange's whole trade range from its first trade on, together with what arrived late from before it |
| `StreamRuns.ProcessMessages` | backend/internal/ingest/ws_client.go:191-208 | Each message adds its trade and the fill of the gap it opened. The run is complete unless a request it made got no batch, so always for an oracle that never fails. When complete, the cells are those of the exchange's gap-free stream from the first message to the highest ID, plus late arrivals from before it; of that stream alone when no message has a lower ID |
| `StreamRuns.AfterStep` | backend/internal/ingest/ws_client.go:191-208 | Replayed trades never precede the first message and never raise the highest ID |
| `StreamRuns.GapFreeCellsIff` | backend/internal/ingest/ws_client.go:191-208 | With positive quantities the cells equal those of the gap-free stream if and only if nothing arrived late from before the first trade |
| `StreamIngest.OnTrade` | backend/internal/ingest/ws_client.go:191-208 | One message goes through every timeframe's aggregator, each with the gap it opened there and its own fill, none affecting another; incomplete only when a named request got no batch |
| `StreamIngest.SortAndDedup` | backend/internal/ingest/binance.go:26-39 | Strictly ascending IDs, exactly those not seen before, each input trade at most once; `seen` grows by all of them |
| `StreamIngest.SameTradesSameCells` | backend/internal/aggregate/aggregator.go:77-143 | Any two orders of the same trades give the same cells |
| `Timeframes.SixTimeframes` | backend/internal/aggregate/aggregator.go:12-29 | For the widths 60, 300, 900, 1800, 3600 and 14400 seconds, by name: the candle starts at a multiple of the width, at or before the trade's second and less than a width before it |
| `Timeframes.CandleHolds` | backend/internal/aggregate/aggregator.go:12-29 | The same for all times, negative ones included, where truncation toward zero makes a candle hold the seconds up to its name |
| `Timeframes.CandleIsInterval` | backend/internal/aggregate/aggregator.go:22-29 | A trade is in the candle at a multiple of the width exactly when its second is in the interval of that width |
| `Timeframes.UnknownTimeframe` | backend/internal/aggregate/aggregator.go:22-29 | Any other name puts every trade into the candle at 0 |
| `Timeframes.WidthsDivide` | backend/internal/aggregate/aggregator.go:12-19 | Of any two of the six widths the smaller divides the larger |
| `Timeframes.TimeframesDivide` | backend/internal/aggregate/aggregator.go:12-19 | Every timeframe is a whole multiple of every shorter one |
| `Timeframes.CandlesNest` | backend/internal/aggregate/aggregator.go:22-29 | The coarse candle of a trade is the coarse candle of its fine candle's start, for all times, negative ones included |
| `Timeframes.CandlesPartition` | backend/internal/history/pipeline.go:155-167 | The candles of any timeframe together carry exactly the traded volume, per side and per region of prices |
| `Timeframes.SlotOfTrade` | backend/internal/aggregate/aggregator.go:22-29 | A trade falls into one of the fine slots of a coarse candle exactly when it falls into that coarse candle |
| `Timeframes.CoarseCandleIsSumOfFine` | backend/internal/history/pipeline.go:155-167 | Before rounding, a coarse candle's volume in any region is the sum over its fine candles |
| `History.Dedup` | backend/internal/history/pipeline.go:129-140 | On sorted trades, dropping neighbours with equal IDs leaves every ID exactly once, ascending |
| `History.SortedTrades` | backend/internal/history/pipeline.go:120-126 | Sorting and deduplicating a file keeps its IDs, once each, ascending |
| `History.TakeTrade` | backend/internal/history/pipeline.go:165 | One aggregator of the table takes the trade; all others keep their logs |
| `History.Add` | backend/internal/history/pipeline.go:157-165 | One trade reaches the aggregator of its own candle and no other, which is created when missing |
| `History.BuildTable` | backend/internal/history/pipeline.go:151-167 | The table holds one aggregator per candle with trades, standing for exactly that candle's trades |
| `History.BatchInsert` | backend/internal/store/clickhouse.go:193-229 | Every row is sent once, in order, with price, quantities, open and close cut to one decimal |
| `History.AggregateAndInsert` | backend/internal/history/pipeline.go:150-204 | For every candle of every requested timeframe the rows are the snapshot of that candle's trades, with the prices of its first and last kept trade; no other rows; and what is sent to the store is these rows cut to one decimal |
| `History.RowsHoldTheirInterval` | backend/internal/history/pipeline.go:155-192 | Every row's candle starts at a multiple of its timeframe's width, and its trades are exactly those whose second lies in that interval |
| `History.FeedAllLogs` | backend/internal/history/pipeline.go:155-167 | A candle has an aggregator exactly when it has trades, and then stands for those trades deduplicated, however often a timeframe is listed |
| `History.OpenAndCloseAreExtremeIds` | backend/internal/history/pipeline.go:177-178 | In sorted history the open and close are the prices of the lowest and highest trade ID of the candle |
| `History.LiveEqualsHistory` | backend/internal/history/pipeline.go:148-192 | Any arrival order with any duplicates gives the live aggregator the same cells as the sorted, deduplicated file |
| `SubKeys.AppendU32` | backend/internal/ws/hub.go:69-81 | Digits written backwards into ten bytes are the decimal notation of every uint32, and the buffer never overruns |
| `SubKeys.WriteDigits` | backend/internal/ws/hub.go:73-79 | The backward loop leaves exactly the digits of the number at the end of a buffer that is large enough |
| `SubKeys.ParseU32` | backend/internal/ws/hub.go:202-210 | Digits are read with uint32 wrap-around, other characters skipped |
| `SubKeys.ReadsDigits` | backend/internal/ws/hub.go:202-210 | What is read is the value of the digits alone, modulo 4294967296 |
| `SubKeys.ParseSubKey` | backend/internal/ws/hub.go:168-200 | The three index scans split at the last two colons and the first one; slicing past the end is a panic |
| `SubKeys.RoundTripIff` | backend/internal/ws/hub.go:61-67 | Parsing a printed key gives back its four parts if and only if market and timeframe are free of colons, for every symbol and every uint32 |
| `SubKeys.KeyExample` | backend/internal/ws/hub.go:61-67 | A subscription key as it is written out, and its four parts read back |
| `SubKeys.KeysInjective` | backend/internal/ws/hub.go:61-63 | Keys of colon-free markets and timeframes identify their four parts |
| `SubKeys.PanicIffTwoColons` | backend/internal/ws/hub.go:192-198 | Parsing panics on exactly the keys with two colons |
| `HubSpec.RegisteredOk` | backend/internal/ws/hub.go:84-89 | Registering keeps the index consistent: c in subs[k] exactly when k in c.subKeys, no foreign or empty set, at most 20 keys |
| `HubSpec.UnregisteredOk` | backend/internal/ws/hub.go:92-103 | Unregistering keeps it and leaves the client in no set |
| `HubSpec.HandledOk` | backend/internal/ws/client.go:127-170 | Every message keeps the index consistent and changes its own connection's keys alone |
| `HubSpec.ResolvedKeyPrintsBack` | backend/internal/ws/hub.go:106-121 | The key a request is filed under parses back to what it was printed from |
| `HubSpec.CompressionIff` | backend/internal/api/validate.go:68-83 | Accepted are 0 and the multiples of the base from the base up to base times levels, that bound taken modulo 4294967296 |
| `HubSpec.MultipleIsAccepted` | backend/internal/api/validate.go:68-83 | While the bound fits in 32 bits, every multiple 1, 2, ..., levels of the base is accepted, the highest included |
| `HubSpec.AcceptedIsMultiple` | backend/internal/api/validate.go:68-83 | and, 0 apart, nothing else is |
| `HubSpec.TopLevelIsAccepted` | backend/internal/api/validate.go:68-83 | On the seeded futures ticker 250 is accepted, 275 and 30 are not |
| `HubSpec.TimeframeIff` | backend/internal/api/validate.go:55-66 | Accepted are 15m, 30m, 1h and 4h, and off the spot market 1m and 5m |
| `HubSpec.ResolveIff` | backend/internal/ws/hub.go:106-121 | Missing fields are refused before an unknown ticker, and that before timeframe and compression; a granted key carries the compression asked for, 0 standing for the base |
| `HubSpec.SubscribeGrantsIff` | backend/internal/ws/hub.go:124-138 | A grant needs an accepted request and fewer than 20 keys, also for a key already held |
| `HubSpec.RegisteredKeepsHub` | backend/internal/ws/hub.go:84-89 | Registering keeps the index consistent and every key in it parseable |
| `HubSpec.UnregisteredKeepsHub` | backend/internal/ws/hub.go:92-103 | So does unregistering |
| `HubSpec.HandledKeepsHub` | backend/internal/ws/client.go:127-170 | So does every message, which changes its own connection's keys alone |
| `Hub.Hub.Register` | backend/internal/ws/hub.go:84-89 | The new client is registered with no keys; nothing else changes |
| `Hub.Hub.Unregister` | backend/internal/ws/hub.go:92-103 | The client leaves the registry and every set, and sets left empty disappear |
| `Hub.Hub.Subscribe` | backend/internal/ws/hub.go:106-142 | Refusal reasons in order, the limit of 20 checked last; a granted request adds one key on both sides of the index |
| `Hub.Hub.Unsubscribe` | backend/internal/ws/hub.go:145-158 | Removes the key as printed from the request, on both sides of the index |
| `Hub.Hub.HandleMessage` | backend/internal/ws/client.go:127-170 | Dispatch acts on the sender's keys as the message handler specification says, and keeps the invariant |
| `Hub.Hub.NotifyCandleClose` | backend/internal/ws/hub.go:353-379 | One group per compression, each with exactly the subscribers of that key, and every subscribed compression of the stream has a group |
| `HubSpec.CloseReachesSubscribersOnce` | backend/internal/ws/hub.go:353-379 | With the groups so chosen a registered client is in exactly one group for each compression it subscribes to, and in no other |
| `Broadcast.CellsToSend` | backend/internal/ws/hub.go:279-283 | Base cells go out as they are at the base compression and as the snapshot of their regrouping above it |
| `Broadcast.SentCellsAreDirect` | backend/internal/ws/hub.go:279-283 | For every compression the validator accepts, what is sent is the aggregation of the contributions at that very compression, with quantities in tenths |
| `Subscriptions.ClientKeyInjective` | frontend-chart/src/lib/wsClient.ts:100-102 | The browser's keys identify subscriptions |
| `Subscriptions.SetSubKeys` | frontend-chart/src/lib/wsClient.ts:234-238 | Subscribing adds one key to what the server should hold |
| `Subscriptions.DeleteSubKeys` | frontend-chart/src/lib/wsClient.ts:244-248 | Unsubscribing removes one key from it and keeps all others |
| `Subscriptions.SubscribeKeepsSyncIff` | backend/internal/ws/hub.go:124-138 | A subscribe keeps browser and server in step if and only if it repeats an active one, or is accepted as asked with fewer than 20 active |
| `Subscriptions.AcceptedIff` | backend/internal/ws/hub.go:106-121 | A subscription is filed under the key it was asked with if and only if its fields are there, its ticker is known, its timeframe is one of the four (off spot six) names, and its compression is a multiple of the base within the bound, or 0 with a base of 0 |
| `Subscriptions.UnsubscribeUndoesIff` | backend/internal/ws/hub.go:117-146 | Unsubscribing undoes a granted subscription if and only if its compression is not zero, or the base compression is zero too |
| `Subscriptions.ZeroCompressionStays` | backend/internal/ws/hub.go:117-146 | On the seeded futures ticker, subscribing with compression 0 and unsubscribing leaves the key of compression 25 |
| `Resubscription.CallKeepsSync` | frontend-chart/src/lib/wsClient.ts:234-252 | The message a call sends has the same effect on the server's keys as the call has on the active subscriptions |
| `Resubscription.OpenRestores` | frontend-chart/src/lib/wsClient.ts:162-172 | Whatever the connect callback does first, resending everything brings a fresh connection to exactly the active subscriptions |
| `Resubscription.ReopenRestoresIff` | frontend-chart/src/lib/wsClient.ts:162-172 | A fresh connection ends with exactly the active subscriptions if and only if each is accepted as asked and there are at most 20 |
| `WsClient.WsClient.Subscribe` | frontend-chart/src/lib/wsClient.ts:234-242 | Adds or replaces the entry and its callbacks, and sends only on an open socket |
| `WsClient.WsClient.Unsubscribe` | frontend-chart/src/lib/wsClient.ts:244-252 | Removes the entry and its callbacks, and sends only on an open socket |
| `WsClient.WsClient.Connect` | frontend-chart/src/lib/wsClient.ts:142-172 | A new socket exactly when none is open or opening and the client is not destroyed |
| `WsClient.WsClient.OnOpen` | frontend-chart/src/lib/wsClient.ts:162-172 | Sends the callback's calls and then every active subscription once, in order |
| `WsClient.WsClient.OnClose` | frontend-chart/src/lib/wsClient.ts:193-199 | Forgets the socket, keeps the subscriptions, arms the timer; nothing once destroyed |
| `WsClient.WsClient.OnTimer` | frontend-chart/src/lib/wsClient.ts:262-271 | Connects and doubles the delay, never beyond ten seconds |
| `WsClient.WsClient.Destroy` | frontend-chart/src/lib/wsClient.ts:273-288 | No socket and no timer remain |
| `WsClient.WsClient.Route` | frontend-chart/src/lib/wsClient.ts:202-219 | An update is delivered if and only if its four fields name an active subscription, with none of them missing, and then to the callbacks that subscription was last registered with |
| `WsClient.UpdateFindsItsSubscription` | frontend-chart/src/lib/wsClient.ts:207-218 | The fields the hub parses out of a subscribed key lead back to exactly that subscription |
| `Protocol.StepKeepsInv` | frontend-chart/src/lib/wsClient.ts:142-252 | Every step of the whole system, cuts and reopens and foreign clients included, keeps the invariant |
| `Protocol.AlwaysInv` | frontend-chart/src/lib/wsClient.ts:142-252 | The invariant holds in every reachable state |
| `Protocol.OpenConnectionIsSynchronised` | frontend-chart/src/lib/wsClient.ts:142-252 | In every reachable state with an open socket the server still reads, replaying what is in flight over its keys for that connection gives exactly the active subscriptions |
| `Protocol.SettledSubscribersAreExact` | backend/internal/ws/hub.go:106-158 | Once nothing is in flight, the hub lists this connection for a stream exactly when the browser has it active |
| `Protocol.CloseReachesSubscribersOnceAlways` | backend/internal/ws/hub.go:353-379 | In every reachable state every registered connection gets a candle close once per compression it subscribes to and otherwise not at all |
| `Protocol.SettledClosesAreExact` | backend/internal/ws/hub.go:353-379 | Once nothing is in flight, this browser gets a candle close exactly for its active subscriptions of the stream |
| `Protocol.ReachedIndex` | backend/internal/ws/hub.go:84-158 | In every reachable state the index is consistent and all its keys parse back |
| `Protocol.IndexStaysConsistent` | backend/internal/ws/hub.go:84-158 | Over all runs of any clients the index agrees both ways, lists registered clients only and holds no empty set |
| `Recovery.Settles` | frontend-chart/src/lib/wsClient.ts:142-271 | Delivering what is in flight brings an open connection to exactly the active subscriptions |
| `Recovery.AlwaysRecovers` | frontend-chart/src/lib/wsClient.ts:142-271 | From every reachable state of a client that was not destroyed there is a run to an open connection with nothing in flight and exactly the active subscriptions |
| `ValueArea.MapCandle` | frontend-chart/src/lib/api.ts:36-84 | The area is the shortest prefix by descending volume that reaches 70%; its extremes are val and vah, and the point of control lies between them when some cell has volume |
| `ValueArea.PointOfControl` | frontend-chart/src/lib/api.ts:42-47 | The first cell of maximal volume, or the open price when none has any |
| `ValueArea.TopVolume` | frontend-chart/src/lib/api.ts:49-57 | The loop stops at the first prefix that reaches the target, or takes everything |
| `ValueArea.SortDescends` | frontend-chart/src/lib/api.ts:49 | The stable sort is descending |
| `ValueArea.SortIsStable` | frontend-chart/src/lib/api.ts:49 | Cells of equal volume keep their order |
| `ValueArea.SortedHead` | frontend-chart/src/lib/api.ts:49 | Because the sort is stable it puts the first maximal cell in front |
| `ValueArea.TopIsBest` | frontend-chart/src/lib/api.ts:49-57 | No selection of m cells holds more volume than the first m by descending volume |
| `ValueArea.ValueAreaIsMinimalIff` | frontend-chart/src/lib/api.ts:49-57 | No selection of fewer cells reaches the target, if and only if there are no cells or the target is positive |
| `ValueArea.PocInValueArea` | frontend-chart/src/lib/api.ts:42-57 | The cell of maximal volume is always taken |
| `VolumeProfile.BuildBins` | frontend-chart/src/components/ClusterChart.tsx:2746-2770 | Each bin holds exactly the volume of its cells, and the profile carries the whole volume |
| `VolumeProfile.BinHolds` | frontend-chart/src/components/ClusterChart.tsx:2754 | Bin b holds exactly the prices from b + 1 steps below the top, excluded, to b steps below it; the end bins also take what lies beyond |
| `VolumeProfile.PointOfControl` | frontend-chart/src/components/ClusterChart.tsx:2772-2783 | The first bin of maximal positive volume, and the total |
| `VolumeProfile.ExpandStopsInTime` | frontend-chart/src/components/ClusterChart.tsx:2785-2811 | The window reaches the target or is everything, and one step earlier it was below the target |
| `VolumeProfile.ExpandReachesTarget` | frontend-chart/src/components/ClusterChart.tsx:2785-2811 | For a positive total the window holds at least 70% of it |
| `VolumeProfile.TakenBelow` | frontend-chart/src/components/ClusterChart.tsx:2791-2811 | A bin taken below the point of control was at least as large as the upper neighbour of the window, or there was none |
| `VolumeProfile.TakenAbove` | frontend-chart/src/components/ClusterChart.tsx:2791-2811 | A bin taken above it was larger than the lower neighbour of the window, or there was none |
| `VolumeProfile.LargerNeighbourFirst` | frontend-chart/src/components/ClusterChart.tsx:2791-2811 | From the middle of 2.5, 5, 3 with a target of 7.35 the window takes the 3 |
| `VolumeProfile.GrowValueArea` | frontend-chart/src/components/ClusterChart.tsx:2791-2811 | The loop terminates with the window of the simple recursion, contiguous around the point of control, and its running volume is the window's sum; with nonnegative bins the third branch is never taken |
| `VolumeProfile.Profile` | frontend-chart/src/components/ClusterChart.tsx:2772-2811 | The whole block: at least 70% around the point of control when there is volume, the single bin otherwise |
| `RedisCells.RedisCache.IncrCell` | backend/internal/cache/redis.go:47-65 | One read, add and write back of a single field of a single hash; nothing else in the store changes |
| `RedisCells.RedisCache.GetAggCells` | backend/internal/cache/redis.go:68-89 | One cell per readable field and no other: its parsed price, as bid the first number stored and as ask the second; unreadable fields are skipped |
| `RedisCells.PrintThenParse` | backend/internal/cache/redis.go:48-63 | Printing with one decimal and parsing gives the value rounded half to even in tenths, and loses nothing else |
| `RedisCells.SplitPair` | backend/internal/cache/redis.go:54-63 | A written pair splits into exactly its two numbers |
| `RedisCells.IncrAddsAndRounds` | backend/internal/cache/redis.go:47-65 | After an increment each side reads back as the rounded sum; all other fields read as before |
| `RedisCells.TiesGoToEven` | backend/internal/cache/redis.go:48-64 | Of two equally near tenths the one with the even last digit is printed |
| `RedisCells.HashExample` | backend/internal/cache/redis.go:47-65 | A bid of 3 and an ask of 1.5 at price 25 are the field 25.0 with the value 3.0,1.5 |
| `RedisCells.Drift` | backend/internal/cache/redis.go:47-65 | Over any run, a field is off by at most 0.05 per trade on that side, and a field exists exactly when a trade fell on it |
| `RedisCells.NoDriftInTenths` | backend/internal/cache/redis.go:47-65 | With quantities in whole tenths the stored sums are exact |
| `RedisCells.PriceSurvivesIff` | backend/internal/cache/redis.go:48 | A bin price survives being a field name if and only if it is a multiple of 0.1 |
| `RedisCells.WideBinsKeepApart` | backend/internal/cache/redis.go:48 | Bins at least 0.1 wide never share a field |
| `RedisCells.NarrowBinsCollide` | backend/internal/cache/redis.go:48 | For every width below 0.1 some two neighbouring bins do share one |
| `RedisCells.LiveNearAggregator` | backend/internal/cache/redis.go:47-89 | The live cell of a bin is within 0.05 per trade plus 0.05 of the aggregator's own cell of the same trades, and equal to it for whole tenths |
| `LiveCandles.CellsPerBin` | backend/internal/cache/redis.go:68-89 | For bins on multiples of 0.1 the cells read back are one per occupied bin; bid and ask are each within 0.05 per trade on that side of the exact bid and ask volume of the bin |
| `LiveCandles.CellsAreAggregator` | backend/internal/cache/redis.go:68-89 | With quantities in whole tenths they are the cells of the aggregator, price, bid and ask |
| `RedisCells.RecordArrivals` | backend/internal/ingest/ws_client.go:210-223 | Each candle's hash holds exactly the run of that candle's arrivals; hashes without arrivals are untouched |
| `LiveAgreement.HashAgreesIffDistinct` | backend/internal/ingest/ws_client.go:192-223 | For positive quantities in whole tenths and the same arrivals, hash and aggregator hold the same numbers in every field and side if and only if no trade ID arrives twice |
| `LiveAgreement.RepeatIsCountedTwice` | backend/internal/ingest/ws_client.go:220 | A trade that arrives twice counts twice in the hash while the aggregator keeps it once |
| `LiveAgreement.MessageKeepsAgreementIff` | backend/internal/ingest/ws_client.go:195-223 | From agreement, hash and aggregator agree after a message if and only if its trade was new and the replay of its gap added nothing |
| `QueryCandles.GroupRows` | backend/internal/store/query.go:60-94 | One accumulator per candle time, holding exactly the rows of that time, times in order of first appearance |
| `QueryCandles.TakeRow` | backend/internal/store/query.go:79-93 | A row extends the cells and totals of its candle; the first row alone sets open and close |
| `QueryCandles.FinishCandle` | backend/internal/store/query.go:97-124 | Cells by price, low and high their extremes, stored open and close unless not positive, rounded totals |
| `QueryCandles.CandleTotals` | backend/internal/store/query.go:121-122 | Volume and delta of a candle against the exact sums of its rows: nearest tenth from -0.05 up, one tenth more below |
| `QueryCandles.ReverseInPlace` | backend/internal/store/query.go:126-129 | Swapping from both ends reverses the array |
| `QueryCandles.QueryCandles` | backend/internal/store/query.go:60-132 | One candle per time, each of exactly its own rows, in reverse order of first appearance |
| `QueryCandles.CandlesAscend` | backend/internal/store/query.go:55-129 | Rows that come newest first give strictly ascending candle times |
| `QueryCandles.EveryRowInOneCandle` | backend/internal/store/query.go:60-130 | All cells of all candles are all cells of all rows, as multisets |
| `StoredCandles.HistoryComesBackIff` | backend/internal/store/clickhouse.go:193-229 | For every answer the table may give to what history sent: a candle's cells are the snapshot of its trades if and only if all occupied bin prices are multiples of 0.1; cells stored at distinct prices come back all, with shortened prices and full volumes; open and close are the shortened prices of the lowest and highest trade ID, exact if and only if multiples of 0.1, with low and high standing in when nothing positive is left |
| `StoredCandles.ComesBackIff` | backend/internal/store/clickhouse.go:213-226 | The same for the cells alone, whatever the order in which rows come |
| `StoredCandles.KeptApartComesBack` | backend/internal/store/clickhouse.go:213-226 | Cells stored at distinct prices come back complete and in order |
| `StoredCandles.ReplacedCandleKeepsAllIff` | backend/migrations/001_init.sql:47-49 | Once the table has replaced rows with equal keys, a candle has kept all its cells if and only if no two were stored at one price |
| `StoredCandles.WideBinsAreKeptApart` | backend/internal/store/clickhouse.go:193-195 | Bins at least 0.1 wide are stored at distinct prices, in every candle |
| `StoredCandles.NarrowBinsAreNotKeptApart` | backend/internal/store/clickhouse.go:193-195 | For every narrower width two neighbouring bins are stored at one price, in any candle that occupies both |
| `StoredCandles.EveryTradeHasItsCandle` | backend/internal/store/query.go:60-130 | The candle of every inserted trade is among those returned, whatever the table answers |
| `OrderMatching.Simulator.OnPrice` | frontend-chart/src/components/DOMSidebar.tsx:195-330 | A tick runs every order in list order through trigger, cash check and fill; exactly the untriggered orders remain, rejected ones do not; an unchanged price changes nothing |
| `OrderMatching.FillBuy` | frontend-chart/src/components/DOMSidebar.tsx:239-274 | A buy adds, reduces, flips or flattens: position by its size, entry price by size-weighted average, unchanged, restarted or zero, cash as the code books it |
| `OrderMatching.FillSell` | frontend-chart/src/components/DOMSidebar.tsx:286-312 | The same for a sell |
| `OrderMatching.ClosingFills` | frontend-chart/src/components/DOMSidebar.tsx:239-312 | An order against a position closes the smaller of the two sizes: what remains, where the entry price goes and what the code books, case by case |
| `OrderMatching.AddingFills` | frontend-chart/src/components/DOMSidebar.tsx:239-312 | An order with the position, or from flat, averages the entry price by size; a buy is paid for, a sell changes no cash |
| `OrderMatching.TriggerMeaning` | frontend-chart/src/components/DOMSidebar.tsx:218-231 | A buy triggers exactly from the lower of the two prices up, a sell from the higher down |
| `OrderMatching.NothingCrossedRemains` | frontend-chart/src/components/DOMSidebar.tsx:211-321 | Exactly the untriggered orders remain, and none of the active symbol is touched by either price |
| `OrderMatching.PositionIsConserved` | frontend-chart/src/components/DOMSidebar.tsx:211-322 | The final position is the start plus filled buys minus filled sells, whatever the sizes |
| `OrderMatching.EntryStaysWithin` | frontend-chart/src/components/DOMSidebar.tsx:239-312 | The entry price never leaves the range of the starting entry and the filled prices |
| `OrderMatching.RunKeepsCoherent` | frontend-chart/src/components/DOMSidebar.tsx:239-312 | Over any run of accepted orders the entry price is zero exactly when the position is flat |
| `OrderMatching.LongRoundTripDoublesProfit` | frontend-chart/src/components/DOMSidebar.tsx:293-301 | Opening a long and closing it changes the cash by twice the profit, which is right if and only if the two prices are equal |
| `OrderMatching.ShortRoundTripPaysForTheCover` | frontend-chart/src/components/DOMSidebar.tsx:257-264 | Opening a short and covering it ends one full buy-back below its profit, which is right if and only if the buy price is zero |
| `LogBuffer.RingBuffer.Write` | backend/internal/admin/ringbuffer.go:20-29 | Appends one line to the history the ring stands for, overwriting the oldest slot only when full |
| `LogBuffer.RingBuffer.LastN` | backend/internal/admin/ringbuffer.go:31-43 | Exactly the last min(n, size, writes) lines ever written, in order |
| `LogBuffer.SlotsDiffer` | backend/internal/admin/ringbuffer.go:23-28 | The slot written next is not in use, unless the ring is full, when it is that of the oldest line |

## Left out

- Floating point: binary rounding of sums and quotients, NaN and infinities; binning a price by float division can miss a boundary that exact integers hit.
- Fixed width of trade IDs, times and counts: int64 and uint32 overflow is modelled only where the code relies on it (compression bounds, key parsing, the carry in rounding).
- A tick size or compression of zero: the original divides by zero in floats, the model requires both to be positive.
- Aggregator.ProcessTrade: coverage is stated for the trades since the last flush, because a flush forgets the last ID; a gap that spans a flush is not detected.
- Aggregator.OpenPrice: speaks of the first trade since construction, not since the last flush, because a flush does not reset it; candle open and close are stated for the fresh aggregators of history.
- FillGap: completeness is against one ID space with ascending batches, which is the spot endpoint; the futures endpoint pages by aggregate-trade ID and reports last trade IDs, so nothing is claimed for it.
- The order of map iteration is left open everywhere; loops over maps take keys in any order.
- Locks, goroutines and liveness: hub methods are atomic steps. `Unregister` calls `ClientCount`, which takes the read lock the caller holds for writing (hub.go:92-103, 161-165), so only its state change is proved, not that it returns.
- Hub.Hub.NotifyCandleClose: chooses receivers only; building and sending the close and open messages, backpressure disconnects and the periodic broadcast are not modelled.
- Case folding of symbol and market in `GetConfig`: configuration lookup is an arbitrary function, so a key subscribed in another case is a different key here as there, and is not reached by a close of the canonical one.
- The candle time stamped by the realtime closer, which uses the next close time and not the candle time of the trades.
- The last-700 candle cache and the zip cache: sorted sets of JSON, newest first where the store is oldest first.
- JSON, HTTP, Redis and ClickHouse clients, downloads, timers, ping and pong: oracles, maps and parameters stand in for them; errors of Redis itself are not modelled.
- RedisCells.GetAggCells: numbers in exponent, hexadecimal, infinite or NaN notation count as unreadable; nothing the code writes is in such a form.
- QueryCandles.QueryCandles: starts from the rows the database returned; the row limit of fifty per candle can cut the oldest candle short.
- StoredCandles.HistoryComesBackIff: speaks of one load into an empty candle. Until the table replaces rows, a second load of the same day can return every cell twice, because the query does not ask for the final version.
- Candle times outside the range of the store's date column.
- The hub's keys parse back under the condition that configured markets are free of colons (`HubSpec.CleanConfig`); the store's market column has the values spot and futures only.
- A browser compression that is no uint32: the server answers such a message with an error, the model has no such value.
- The browser's closing state is merged with closed, and callbacks are names; connect callbacks register theirs under one name.
- The copy of `mapBackendCandle` in wsClient.ts: hub messages carry no cell volume, so its value area is not meaningful; the copy in api.ts is modelled.
- VolumeProfile.BuildBins: takes the contributions that pass the on-screen range test; the pixel geometry that decides it is left out.
- OrderMatching.Simulator.OnPrice: amounts are not cut to two and four decimals, and log lines are left out. Market orders and placing or cancelling orders are not modelled.
- LogBuffer.RingBuffer.LastN: a negative count, which panics in the original, is excluded by type; the ring size must be positive.
- Tier limits, authentication, CORS, favourites, layout, drawing, the fear and greed index and the synthetic kline distribution: easy or bound to libraries.
