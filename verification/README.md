# Verification of the trading core

A Dafny model of the trading bot's core, with proofs. Each module follows one source file (or one
component) and keeps its form: objects that change their fields are classes whose methods are proved
against a function of the old state, loops are methods with invariants, pure code is functions. What
the functions mean is then proved in lemmas about them, about whole runs where the source runs.

| files | component |
|---|---|
| `Core`, `Keys`, `Calendar`, `Fsm`, `Venue` | shared vocabulary, string keys, the calendar, the abstract state machines, an exchange whose every request may throw |
| `MockAdapter`, `LedgerLaws` | the in-memory backtest exchange and its bookkeeping |
| `BacktestStrategy`, `BacktestEngine`, `BacktestLaws`, `BacktestRisk`, `Metrics` | the strategy's own copy of the position, the runner, the agreement of the two copies, where each trade comes from and what it can lose, the metrics |
| `Sizer`, `EvidenceGate` | position size, leverage, stop price, entry evidence |
| `Executor`, `Exits`, `Trailing`, `ExitPipeline` | entry, exit and trailing protocols against a failing exchange, and what the daemon makes of the last two |
| `TicketStore`, `StoreEffects`, `StoreLaws`, `StoreGuards` | tickets, symbol states and watch sessions as tables under atomic steps |
| `Reconciliation` | comparison of positions and tickets, one cycle, the timer chain |
| `HistoryLoader`, `Wfo`, `GapDetection` | cover of a date range by archive files, walk-forward windows, missing candles |
| `Normalizer`, `WsManager`, `Collector` | vector normalisation, the reconnecting socket, close-notification deduplication |

`dafny verify dfyconfig.toml` checks everything.

## Conventions

- `Decimal` is `real`: the 20-digit rounding of `src/core/decimal.ts:4-7` is not modelled. Times are
  integers in milliseconds. JavaScript numbers in the normaliser are reals.
- A thrown error is a constructor of the result. An exchange call that throws has no effect; an
  accepted market order is filled at once. What the exchange answers and what the clock reads are
  arbitrary functions, so the protocol results hold for every pattern of failures and delays.
- A database transaction is one atomic step. `openWatchSession` and `invalidateWatchSession` are not
  transactions in the source, so their statements are also steps of their own.
- Methods are tied to specification functions; what those compute is stated once more by laws in
  prices, sizes, times and written-out constants that do not name the function they are about.

## What the proofs found

Each of these is the code's behaviour, stated by a lemma that gives the exact condition or an input.

- With several symbols open, a full or partial close leaves the other symbols' locked cost out of the total balance (`CloseBalancesIff`, `TwoSymbolsDrift`).
- A close overdraws the account exactly when the position is short and the price has risen far enough (`CloseOverdrawsIff`, `ShortCanOverdraw`).
- A closing trade with a gain of exactly zero is booked as WIN (`RunLabels`): `isPositive` is true of zero.
- A booked loss can exceed the risk share by the slippage on both fills, by a quote worse than the acting candle's close, and when the minimum order is placed because the sizer gave none (`TradesWithinBudget`, `StoppedOutGain`).
- A market order is quoted at the close of the last candle in the order supplied, of whatever timeframe, which is the latest one only in a history in time order (`CurrentCandleIs`, `CurrentIsLatest`).
- On a flat candle the stop price equals the close, the sizer throws and the backtest run ends there (`CandleThrows`).
- The leverage is rounded up after the cap was applied, so the limit is kept by every call exactly when it is a whole number (`WholeCapIff`, `LeverageWithinCapIff`, `FractionalCapExceeded`).
- With a zero expected price the slippage check throws after the fill, before any stop or close (`ThrowsAfterFillIff`, `UncoveredIff`).
- After a slippage abort the bracket's stop stays on the exchange (`ClosedRestoresBookIff`).
- TP1 reports success and a breakeven stop price even when moving the stop left the position without one (`SuccessWithoutStopIff`). The TP2 comment at `src/exits/manager.ts:268` says a third; the code closes half (`src/exits/checker.ts:163-164`).
- The pipeline never passes a stop order number, so no move edits or cancels the old stop and every accepted one adds another (`StopsPileUp`).
- Closing a ticket through `transitionTicket` leaves HAS_POSITION behind for good (`StuckForever`); closing one of several tickets of a key sets IDLE under the others (`CloseFreesKeyIff`). `PositionThroughoutIff` gives exactly the interleavings that avoid both.
- Statement by statement, WATCHING can outlive its session (`WatchingWithoutSession`, and `WatchedThroughoutIff` for exactly when not); stale parent rows allow more pyramid children than the maximum (`StaleRowsExceedMaximum`).
- `Date.UTC` reads the years 0 to 99 as 1900 to 1999 (`CalendarSafe` says which ranges that spares); a roll that is not positive never ends (`BackwardRollNeverStops`); a schedule that rolls by exactly its out-of-sample period has a hole where the next start overflows a short month further than the last end did (`NoHoleIff`), which start days up to 28 rule out (`HoleFreeStartDays`).
- The merge pass of the gap detection never merges anything (`MergingFindsNothing`), and missing candles at the ends of the requested range go unreported unless all are missing (`RangeReportedIff`).
- The first successful open after failed first attempts keeps the long backoff, against the comment at `src/exchanges/ws-manager.ts:71-72` (`OpenRestartsBackoffIff`).

## Model

| member | source | states |
|---|---|---|
| MockAdapter.MockExchangeAdapter.ClosePosition | src/backtest/mock-adapter.ts:200-230 | new account, position and returned size of a full or partial close, as the ledger value `Closed` |
| MockAdapter.MockExchangeAdapter.FillMarketEntry | src/backtest/mock-adapter.ts:234-285 | opening, averaging or replacing a position, or refusing for lack of balance with nothing changed |
| MockAdapter.MockExchangeAdapter.CreateOrder | src/backtest/mock-adapter.ts:341-373 | the three order types with all three thrown errors; the order number advances even when it throws |
| MockAdapter.MockExchangeAdapter.CheckPendingOrders | src/backtest/mock-adapter.ts:385-423 | triggers, fills and marks the pending stops in insertion order and reports one fill each |
| MockAdapter.MockExchangeAdapter.CancelOrder | src/backtest/mock-adapter.ts:425-431 | marks the order CANCELLED whatever its status was, FILLED included |
| MockAdapter.MockExchangeAdapter.EditOrder | src/backtest/mock-adapter.ts:433-456 | re-prices or re-sizes an order only while it is PENDING, otherwise fails and changes nothing |
| LedgerLaws.CheckFillsIff | src/backtest/mock-adapter.ts:385-423 | after a check a pending order is FILLED iff it is of the candle's symbol and the low fell to a sell's trigger price or the high rose to a buy's; nothing else about any order changes |
| LedgerLaws.CurrentCandleIs | src/backtest/mock-adapter.ts:112-119 | the current candle is the last of the symbol, in the order supplied, that the clock has reached; none iff none is |
| LedgerLaws.CurrentIsLatest | src/backtest/mock-adapter.ts:112-119 | in a history in time order no candle reached is later than it |
| LedgerLaws.MarketFillPrice | src/backtest/mock-adapter.ts:341-373 | a market order is filled at that candle's close, the percentage above it for a buy and below for a sell, and throws for want of a candle iff there is none |
| LedgerLaws.RestingOrders | src/backtest/mock-adapter.ts:341-373 | stop and limit orders: the answer, the one new pending order, the missing trigger price, and no money moved |
| LedgerLaws.CancelLaw | src/backtest/mock-adapter.ts:425-431 | exactly the order of that number is marked CANCELLED |
| LedgerLaws.EditLaw | src/backtest/mock-adapter.ts:433-456 | an edit fails iff no pending order has the number; otherwise that order takes the given price and size and no other changes |
| LedgerLaws.EntryLaw | src/backtest/mock-adapter.ts:234-285 | an entry of any size is refused iff it costs more than is available; otherwise total and drift stay, averaging adds sizes and costs, other symbols are untouched |
| LedgerLaws.CloseLaw | src/backtest/mock-adapter.ts:200-230 | a close takes min(requested, held), keeps the rest at its entry price, and what the total becomes with any number of symbols open |
| LedgerLaws.NothingToClose | src/backtest/mock-adapter.ts:200-205 | without a position a close takes nothing and changes nothing |
| LedgerLaws.CloseBalancesIff | src/backtest/mock-adapter.ts:206-214 | after a close the books balance iff no other symbol holds locked cost |
| LedgerLaws.TwoSymbolsDrift | src/backtest/mock-adapter.ts:206-214 | the two-symbol account whose total loses the other position's cost |
| LedgerLaws.CloseInTwoSteps | src/backtest/mock-adapter.ts:200-230 | closing in two steps at one price leaves exactly the account of one close |
| LedgerLaws.SoloRun | src/backtest/mock-adapter.ts:200-302 | every single-symbol run with positive entry sizes: available + locked cost = total, locked cost = entry price x size, and the total moved by the realised gains and nothing else |
| LedgerLaws.CheckOrders | src/backtest/mock-adapter.ts:385-423 | a check turns exactly the triggered pending orders FILLED, each in its place |
| LedgerLaws.CheckFills | src/backtest/mock-adapter.ts:385-423 | the reported fills are those of the triggered orders, one each, in order |
| LedgerLaws.SettledForever | src/backtest/mock-adapter.ts:385-456 | no operation fills or revives a filled or cancelled order |
| LedgerLaws.NoDoubleFill | src/backtest/mock-adapter.ts:385-431 | over any run of any operations on any symbols no stop is reported filled twice, although cancelling overwrites FILLED |
| LedgerLaws.LongRunNeverOverdraws | src/backtest/mock-adapter.ts:234-302 | with long entries and non-negative prices the available balance never goes below zero |
| LedgerLaws.CloseOverdrawsIff | src/backtest/mock-adapter.ts:206-230 | a close at a non-negative price overdraws iff the position is short and less is available than the closed units cost at the fill price less twice the entry price |
| LedgerLaws.ShortCanOverdraw | src/backtest/mock-adapter.ts:206-214 | such a short: its close leaves minus fifty |
| BacktestStrategy.Strategy.OnCandleClose | src/backtest/strategy.ts:140-289 | the callback's whole effect on its own position, its session, the adapter and the recorded trades |
| BacktestStrategy.Strategy.EnterPosition | src/backtest/strategy.ts:228-285 | sizing, balance cap, entry, stop order and own position, with the silent returns and the one throw |
| BacktestStrategy.SessionLaw | src/backtest/strategy.ts:193-212 | when an hourly candle keeps, ends or starts a watch session |
| BacktestStrategy.OrderSizeLaw | src/backtest/strategy.ts:229-249 | an order is the sizer's or the minimum, cut to 95% of the balance |
| BacktestStrategy.TradeLaw | src/backtest/strategy.ts:150-176 | gain, percentage of the cost, whole seconds and label of a trade |
| BacktestEngine.SortLaw | src/backtest/engine.ts:111-116 | the sort yields processing order, a permutation, and keeps the order of candles that compare equal |
| BacktestEngine.SortedByTime | src/backtest/engine.ts:111-116 | earlier candles first, at one time the longer timeframe first |
| BacktestEngine.BacktestRunner.Run | src/backtest/engine.ts:106-136 | clock, callback and trade list over all sorted candles; stops where the callback throws |
| BacktestLaws.MonitoringInSync | src/backtest/strategy.ts:149-178 | the stop check closes both copies of the position and books exactly one trade, or changes nothing |
| BacktestLaws.EnteringInSync | src/backtest/strategy.ts:253-285 | an entry opens both copies alike, protected by one pending stop at the evidence's price |
| BacktestLaws.CandleInSync | src/backtest/strategy.ts:140-289 | one candle keeps the two copies equal; the total moves by the gain of the at most one trade booked |
| BacktestLaws.RunInSync | src/backtest/strategy.ts:121-288 | for any candles and decisions: own position equal to the exchange's, one pending reduce-only stop of its size iff in a position, total = start + recorded gains |
| BacktestLaws.BacktestBalances | src/backtest/engine.ts:106-136 | the same for a fresh run over the sorted candles; flat at the end means everything is available |
| BacktestLaws.CandleTimes | src/backtest/strategy.ts:160-173 | when a booked trade opened and closed, and its duration |
| BacktestLaws.BacktestChronology | src/backtest/engine.ts:111-127 | recorded trades are in time order, do not overlap, and none has a negative duration, whatever the loading order |
| BacktestLaws.CandleThrows | src/backtest/strategy.ts:228-240 | the callback throws iff it acts on a flat candle with a positive balance |
| BacktestLaws.RunCompletes | src/backtest/engine.ts:124-127 | a run over candles that all have a range never aborts |
| BacktestLaws.EntryWithinRisk | src/backtest/strategy.ts:229-249 | at the quoted close and stop price, without slippage, an entry sized by the sizer loses at most balance x risk share |
| BacktestRisk.TradesWithinBudget | src/backtest/strategy.ts:140-289 | in every fresh run each booked trade was opened on a safe 5M or 1M candle, while an hourly detection of its direction was being watched, sized for the balance the earlier trades left and filled at the slipped quote; it closed on the first later candle whose low (long) or high (short) reached the evidence's stop; and it lost at most its budget |
| BacktestRisk.OpenAtTheEnd | src/backtest/strategy.ts:140-289 | a position held at the end was opened the same way and its stop reached by no candle since |
| BacktestRisk.UnreachedStaysOpen | src/backtest/strategy.ts:149-178 | a position whose stop no candle reaches stays open and nothing else happens |
| BacktestRisk.CandleOpens | src/backtest/strategy.ts:140-289 | one candle stops a held position out iff it reaches the stop, and otherwise leaves it alone |
| BacktestRisk.EntersIff | src/backtest/strategy.ts:208-285 | a flat strategy enters iff the candle is 5M or 1M, it is watching, evidence and safety check agree, the size is not below the minimum, and the balance pays for it at the slipped quote |
| BacktestRisk.StoppedOutGain | src/backtest/mock-adapter.ts:121-130 | the exact gain of a stopped-out trade: acting close to stop, less the worse quote, less slippage percentage x (quote + stop) |
| BacktestLaws.NoLookahead | src/backtest/mock-adapter.ts:112-119 | histories that agree up to a time give the same run up to that time |
| Sizer.RiskPctAntitone | src/positions/sizer.ts:101-115 | the risk share lies in [0.01, 0.03], reaches both ends and never grows with the balance |
| Sizer.RiskPctTiers | src/positions/sizer.ts:101-115 | 3% up to 300000, 1% from 30000000, the straight line between |
| Sizer.RoundDownIsLargest | src/positions/sizer.ts:121-125 | rounding gives the largest tick multiple not above the size |
| Sizer.RawSizeIsLargest | src/positions/sizer.ts:184-200 | a size is within risk and leverage bounds iff it is at most the computed one |
| Sizer.RoundedSizeIsLargest | src/positions/sizer.ts:184-205 | the rounded size is allowed and no allowed tick multiple exceeds it |
| Sizer.CalculateSizeLaw | src/positions/sizer.ts:153-225 | exactly when it throws, exactly when it returns null, and otherwise the largest allowed tick multiple with maxLoss within the budget |
| Sizer.SizeDetails | src/positions/sizer.ts:153-225 | the reported budget, whether the leverage limit cut the size, and which of the errors it is |
| Sizer.LeverageLaw | src/positions/sizer.ts:188-221 | the leverage is the position's leverage rounded up; at most min(38, maxLeverage) when that is whole, at most its ceiling otherwise |
| Sizer.LeverageBounds | src/positions/sizer.ts:188-221 | never above 38 and less than one above maxLeverage; the cost within both times the balance |
| Sizer.LeverageWithinCapIff | src/positions/sizer.ts:188-221 | a returned leverage is within min(38, maxLeverage) iff the position costs at most its whole part times the balance |
| Sizer.WholeCapIff | src/positions/sizer.ts:188-221 | no call ever exceeds min(38, maxLeverage) iff that limit is a whole number |
| Sizer.FractionalCapExceeded | src/positions/sizer.ts:188-216 | a call whose leverage of 13 exceeds a limit of 12.5 |
| EvidenceGate.StopBeyondExtreme | src/signals/evidence-gate.ts:45-68 | the stop lies beyond the candle's extreme on the losing side iff the candle has a range |
| EvidenceGate.StopDistance | src/signals/evidence-gate.ts:45-68 | the stop lies 15% of the tail, or of the range without a tail, beyond the extreme |
| EvidenceGate.EvidenceIff | src/signals/evidence-gate.ts:82-189 | which candles are evidence for a session, its type and its grade, in prices and bands |
| EvidenceGate.EvidenceIsSizable | src/signals/evidence-gate.ts:82-189 | evidence keeps the session's direction and the close as entry, and makes the sizer throw iff the candle is flat |
| EvidenceGate.LongShortMirror | src/signals/evidence-gate.ts:82-189 | turning prices upside down swaps long and short evidence, unless one candle touches both bands |
| EvidenceGate.BothBandsFavourLong | src/signals/evidence-gate.ts:95-104 | a candle touching both bands is never short evidence |
| Metrics.CalcBasicMetrics | src/backtest/metrics.ts:44-144 | one-pass counts and win rate; all four expectancy branches equal (wins - absolute losses)/n; the drawdown is the deepest fall E_j - E_i, i <= j, its percentage that of the first such fall; all zero for no trades |
| Metrics.DrawdownUnique | src/backtest/metrics.ts:105-131 | a list of trades has one such drawdown and one such peak |
| Metrics.Streaks | src/backtest/metrics.ts:265-286 | the longest winning and longest non-winning runs |
| Metrics.CalcMaxConsecutiveLosses | src/api/routes/stats.ts:64-78 | the longest non-winning run |
| Metrics.LongestRunUnique | src/api/routes/stats.ts:64-78 | there is one such length, so both loops agree |
| Metrics.SignedTrades | src/backtest/strategy.ts:170-170 | for trades labelled by sign, wins minus absolute losses is the whole gain |
| Metrics.RunLabels | src/backtest/strategy.ts:170-170 | every trade of every run is labelled WIN iff its gain is at least zero |
| Metrics.ExpectancyIsAccountChange | src/backtest/metrics.ts:84-102 | the expectancy of a backtest is the account's change divided by the number of trades |
| Executor.ExecuteEntry | src/orders/executor.ts:374-695 | for every pattern of responses and clock readings the calls made, the readings they follow and the result obey the protocol relation; the readings are the next ones of the clock |
| Executor.SlippageAbortsIff | src/orders/slippage.ts:59-76 | with a positive expected price an accepted entry is aborted for slippage iff the reported fill is above price x (1 + limit) or below price x (1 - limit) |
| Executor.SpreadRefusesIff | src/orders/slippage.ts:96-107 | a live entry is refused for its spread iff 2 (ask - bid) > limit x (bid + ask), throws iff bid + ask is zero, and then sends nothing |
| Executor.RecordsTell | src/orders/executor.ts:487-556 | the records of the entry and of the stop: side, size, status, fill, deviation |
| Executor.OnlyEntriesAdd | src/orders/executor.ts:456-680 | entry orders alone can add to a position; the first carries the stop iff the exchange takes both in one step, and a second follows iff that was rejected |
| Executor.SuccessInNumbers | src/orders/executor.ts:456-695 | a long success adds the size and a sell stop, a short one takes it off and adds a buy stop |
| Executor.OpenPosition | src/orders/executor.ts:450-528 | leverage, then the entry orders; nothing follows a rejected leverage call |
| Executor.AttemptEntry | src/orders/executor.ts:456-528 | bracket where supported, plain order when it throws or is not supported |
| Executor.AttemptSlRegistration | src/orders/executor.ts:316-359 | a clock reading before each try and after each rejected one; at most three tries, none after success or a late reading; success, a late reading or three rejections, and which |
| Executor.CompleteEntry | src/orders/executor.ts:558-695 | slippage check, stop registration, emergency close and the result of each path |
| Executor.EmergencyClose | src/orders/executor.ts:200-256 | one reduce-only market order of the full size; a throw is swallowed and recorded as FAILED |
| Executor.SuccessIsCovered | src/orders/executor.ts:456-695 | success leaves the position larger by the full size with a stop at slPrice for all of it |
| Executor.FailureCloses | src/orders/executor.ts:567-680 | failure after a fill ends in a full-size reduce-only close; if accepted, the position is back where it was |
| Executor.ClosedRestoresBookIff | src/orders/executor.ts:567-620 | after an accepted close the whole book is as before iff the entry was no bracket; a bracket's stop still rests |
| Executor.UncoveredIff | src/orders/executor.ts:525-680 | a position is left open without a stop iff no stop was accepted and the close was rejected, or the expected price is zero and a fill price was reported |
| Executor.ThrowsAfterFillIff | src/orders/slippage.ts:59-76 | after a fill it throws iff the expected price is zero and a fill price was reported, and then nothing is closed |
| Executor.StopMeansSuccess | src/orders/executor.ts:336-342 | any accepted stop request makes the entry succeed |
| Executor.AtMostSixOrders | src/orders/executor.ts:374-695 | at most six createOrder calls; none on a failed mode or spread check |
| Executor.StopTriesAreTimely | src/orders/executor.ts:324-343 | no stop request starts more than 3000 ms after the fill |
| Executor.GivesUpIff | src/orders/executor.ts:324-358 | the entry is aborted for the time limit iff some reading lies more than 3000 ms after the fill, and for lack of tries iff three were rejected and no reading was late |
| Executor.FinalBook | src/orders/executor.ts:374-695 | the position and stops after a whole run, from any book |
| Exits.TargetTakenIff | src/exits/checker.ts:112-149 | a target is taken iff the ticket is on its rung and the price gains at least what the target would, long or short |
| Exits.MoveSl | src/exits/manager.ts:156-259 | edit, else cancel and create: the calls made and whether an order is returned |
| Exits.MoveSlEffect | src/exits/manager.ts:156-259 | those calls' effect on the resting stops |
| Exits.MovedMeansStopped | src/exits/manager.ts:156-259 | a returned order means a stop rests at the new price |
| Exits.NotMovedAddsNothing | src/exits/manager.ts:156-259 | without a returned order the move added and re-priced nothing |
| Exits.LeftWithoutStopIff | src/exits/manager.ts:169-258 | for any row and book no stop rests after a move iff nothing is created and every one that rested was the row's own and was cancelled |
| Exits.ProcessExit | src/exits/manager.ts:275-406 | the calls and the result for each action and each failure |
| Exits.OutcomeIff | src/exits/manager.ts:275-406 | success iff nothing was to do or the close was accepted; when the stop counts as moved; the rung and the remaining size reported |
| Exits.ExitsOnlyReduce | src/exits/manager.ts:275-406 | every order of an exit is reduce-only and on the closing side |
| Exits.TickOnLadder | src/exits/checker.ts:85-174 | one check and exit moves along the transition map or changes nothing, and closed + remaining is conserved |
| Exits.Ladder | src/exits/manager.ts:275-406 | over any prices, times, timeframes and failures: remaining is size, size/2, size/4 or 0 by state, closed + remaining = size, and the exchange position equals the remaining size |
| Exits.AtMostThreeExits | src/positions/fsm.ts:24-29 | at most three exits ever succeed |
| Exits.TimeExitCloses | src/exits/checker.ts:102-110 | a ticket closes iff it is held for more than 216000000 ms and the close is accepted, on every timeframe; within that time nothing happens off the 5M close |
| Exits.TimeExitIff | src/exits/checker.ts:85-149 | past 216000000 ms an open ticket is closed whole; within them only the rung's own target acts |
| Exits.StoredByTick | src/exits/manager.ts:361-406 | the first target turns trailing on and stores the entry price as stop; no other exit touches either |
| Exits.SuccessWithoutStopIff | src/exits/manager.ts:361-388 | exactly when TP1 reports success although no stop is left, with and without a stop order number in the row |
| ExitPipeline.StopsPileUp | src/daemon/pipeline.ts:1051-1139 | over any candles, whatever row each one reads, and any failures no resting stop is removed or re-priced, and their number grows by exactly the accepted stop orders |
| ExitPipeline.OneMovePerCandle | src/daemon/pipeline.ts:1051-1139 | a candle creates at most one stop: targets on 5M only, trailing on 1H only, where within 216000000 ms nothing else happens |
| Fsm.TablesAgree | src/positions/fsm.ts:24-96 | the event table and the transition table allow the same moves |
| Trailing.ProcessTrailing | src/exits/manager.ts:421-492 | the update, the stop move and the calls of one step |
| Trailing.TrailingLaw | src/exits/manager.ts:421-492 | from any ticket over any prices: the stop ends at the more favourable of where it started and entry +- half the best profit, and the stored maximum is the best profit iff the stop moved; nothing changes while trailing is off |
| Trailing.TrailingInPrices | src/exits/trailing.ts:54-103 | in prices: stored maximum = largest of the starting one and price - entry (long) or entry - price (short), stop = entry +- half of it |
| Trailing.StepMovesIff | src/exits/manager.ts:437-470 | when one step moves the stop, in prices; in step, a long stop moves iff the price is above entry + stored maximum, a short one iff below entry - stored maximum |
| Trailing.BestProfitUnique | src/exits/trailing.ts:94-103 | there is one best profit, so stop and stored maximum are determined |
| Trailing.TrailingInStep | src/exits/trailing.ts:54-103 | from a ticket as TP1 leaves it: stored maximum = best excursion, stop = entry +- half of it, never on the losing side, although steps without a move drop their maximum |
| Trailing.StopNeverRetreats | src/exits/trailing.ts:76-85 | from any ticket, between any two moments the stop only moves favourably |
| Trailing.MirrorImage | src/exits/trailing.ts:54-103 | a short ticket trails reflected prices exactly as a long one trails the prices |
| TicketStore.Database.CreateTicketTx | src/positions/ticket-manager.ts:128-208 | the transaction's effect and its errors in order; nothing changes on an error |
| TicketStore.Database.TransitionTicketTx | src/positions/ticket-manager.ts:221-259 | validated state change of one ticket |
| TicketStore.Database.CloseTicketTx | src/positions/ticket-manager.ts:280-417 | validated close with pnl share and duration, symbol state IDLE, everything rolled back when labelling fails |
| TicketStore.Database.ExecutePyramidTx | src/positions/pyramid.ts:176-302 | checks on the caller's row, child insert, parent count set to the row's count plus one |
| TicketStore.Database.OpenSession | src/signals/watching.ts:378-433 | invalidate, insert, guarded IDLE to WATCHING; the insert never hits the unique index |
| TicketStore.Database.InvalidateSession | src/signals/watching.ts:442-483 | mark and guarded WATCHING to IDLE |
| StoreEffects.CreateLaw | src/positions/ticket-manager.ts:128-208 | success iff the key is watched, has no open ticket and the signal is new; the new row and the key's state |
| StoreEffects.TransitionLaw | src/positions/ticket-manager.ts:221-259 | success iff one rung down or to CLOSED from an open rung; only the state changes |
| StoreEffects.CloseLaw | src/positions/ticket-manager.ts:280-417 | success iff the ticket is open, cost something and labelling works; pnl, its share of the cost, whole seconds held, key freed |
| StoreEffects.PyramidLaw | src/positions/pyramid.ts:176-302 | success condition, the child row and the parent's stored count |
| StoreEffects.OpenLaw | src/signals/watching.ts:378-433 | which sessions end, which one is added, and the key's state |
| StoreEffects.InvalidateLaw | src/signals/watching.ts:442-483 | which session ends and the key's state |
| StoreEffects.EdgesAreTaken | src/positions/fsm.ts:134-138 | a change of symbol state is an edge iff some run of whole calls makes it |
| TicketStore.CanPyramidIff | src/positions/pyramid.ts:129-160 | allowed iff a target is hit and the ticket is open, both prices are there, the stop leaves no loss, and the count, zero where missing, is below the maximum |
| StoreLaws.PlainRunsAreConsistent | src/positions/ticket-manager.ts:128-371 | pyramid-free runs of whole calls: HAS_POSITION iff an active ticket, at most one per key, WATCHING only with an active session, at most one session per key |
| StoreLaws.PlainRunsFollowEdges | src/positions/fsm.ts:134-138 | in such runs every change of a symbol state is an edge of its machine, though closing never reads the state |
| StoreLaws.TransitionBreaksIff | src/positions/ticket-manager.ts:221-259 | a successful transition keeps HAS_POSITION-iff-active iff its target is not CLOSED |
| StoreLaws.StuckForever | src/positions/ticket-manager.ts:128-371 | after closing by transition no call of the five frees the key again |
| StoreLaws.CloseFreesKeyIff | src/positions/ticket-manager.ts:359-371 | closing sets IDLE, and the key still has an active ticket iff another one was active (a pyramid parent or child) |
| StoreLaws.WatchingWithoutSession | src/signals/watching.ts:378-483 | an interleaving of the single statements that leaves WATCHING without an active session |
| StoreGuards.WatchingStepIff | src/signals/watching.ts:378-483 | each single statement or call keeps WATCHING-implies-session iff its guard holds: IDLE to WATCHING needs a session, invalidating needs the key not WATCHING |
| StoreGuards.WatchedThroughoutIff | src/signals/watching.ts:378-483 | an interleaving keeps it throughout iff every step meets its guard |
| StoreGuards.WatchedFromEmptyIff | src/signals/watching.ts:378-483 | the same from empty tables |
| StoreGuards.PositionStepIff | src/positions/ticket-manager.ts:128-371 | each single step keeps HAS_POSITION-iff-active-ticket iff its guard holds: the key of a closed ticket has no other active one, that of a ticket moved to CLOSED has |
| StoreGuards.PositionThroughoutIff | src/positions/ticket-manager.ts:128-371 | an interleaving keeps it throughout iff every step meets its guard |
| StoreGuards.PositionFromEmptyIff | src/positions/ticket-manager.ts:128-371 | the same from empty tables |
| StoreLaws.AnyRunIsSafe | src/positions/ticket-manager.ts:152-167 | any interleaving with stale pyramid rows and external fsm writes: one active parentless ticket per key, counts within the maximum, signals used once, one active session per key |
| StoreLaws.AnyRunFromEmpty | src/positions/ticket-manager.ts:152-167 | so in every run from empty tables |
| StoreLaws.ClosedStaysClosed | src/positions/fsm.ts:24-29 | in any interleaving closed tickets stay closed, states only move down, identity is kept |
| StoreLaws.CountsExactIff | src/positions/pyramid.ts:280-291 | a pyramid entry keeps pyramid_count equal to the number of children iff the row it used was up to date |
| StoreLaws.UpToDateRowsBoundChildren | src/positions/pyramid.ts:129-160 | with up-to-date rows no parent has more children than the maximum |
| StoreLaws.StaleRowsExceedMaximum | src/positions/pyramid.ts:280-291 | entries sharing one stale row: any number of children while the count stays within the maximum |
| Reconciliation.ComparePositions | src/reconciliation/comparator.ts:75-162 | the map-and-set classification equals the declarative one, in order |
| Reconciliation.DirKeyInjective | src/reconciliation/comparator.ts:49-51 | the concatenated key is equal iff symbol, exchange and direction are, even when symbols contain colons |
| Reconciliation.MatchedIff | src/reconciliation/comparator.ts:112-122 | matched is exactly all same-(symbol, exchange, direction) pairs of positions and non-recent tickets |
| Reconciliation.UnmatchedIff | src/reconciliation/comparator.ts:123-141 | a position is unmatched iff no non-recent ticket of its trade, no pending order and no recent ticket on its market |
| Reconciliation.PositionsPartitioned | src/reconciliation/comparator.ts:112-142 | each position is in exactly one of matched, excluded (one reason) and unmatched |
| Reconciliation.PositionsCounted | src/reconciliation/comparator.ts:112-142 | counted with repetition, none is lost |
| Reconciliation.TicketsPartitioned | src/reconciliation/comparator.ts:150-159 | each non-recent ticket is in exactly one of matched and orphaned, a recent one in neither |
| Reconciliation.RunOnce | src/reconciliation/worker.ts:134-302 | closes attempted, tickets set idle, and the exact error counts of a cycle under any failures |
| Reconciliation.AllPositionsIff | src/reconciliation/worker.ts:143-163 | the positions compared are those of the successful fetches, in order |
| Reconciliation.FetchErrorsCount | src/reconciliation/worker.ts:157-163 | the exchange errors counted are the failed fetches |
| Reconciliation.CountFailedIs | src/reconciliation/worker.ts:190-302 | the action errors counted are the attempts that threw |
| Reconciliation.PanicCloseIsSafe | src/reconciliation/worker.ts:167-236 | a cycle never closes a position with a same-direction ticket, a pending order or a recent ticket on its market |
| Reconciliation.CyclesNeverOverlap | src/reconciliation/worker.ts:324-341 | timer and cycle exclude each other and, until stopped, one of both is there |
| Reconciliation.WorkerNeverOverlaps | src/reconciliation/worker.ts:324-342 | so a started worker never runs two cycles at once and keeps going until stopped |
| Reconciliation.NeverStuck | src/reconciliation/worker.ts:324-342 | until stopped, either the timer can fire or the running cycle can end |
| Reconciliation.CyclesStarted | src/reconciliation/worker.ts:324-342 | every timer that fires before a stop starts one cycle and nothing else does |
| Reconciliation.StopIsFinal | src/reconciliation/worker.ts:348-357 | after stop() no cycle starts and no timer is armed, even from inside a running cycle |
| Calendar.FirstDayIsClosedForm | src/candles/history-loader.ts:192-224 | month-by-month counting equals the closed form of ECMA-262 section 21.4.1 for every month |
| Calendar.MonthOfUnique | src/candles/history-loader.ts:179-185 | a date and its day number determine each other |
| HistoryLoader.BuildSegments | src/candles/history-loader.ts:171-229 | the segments expand to exactly the days of the range, once and in order, iff the range is safe from Date.UTC's reading of the years 0 to 99; then a month is monthly iff it lies wholly in the range through 23:59:59; the loop ends |
| HistoryLoader.UnsafeRange | src/candles/history-loader.ts:219-223 | a range in the year 50 that is not safe |
| Wfo.GenerateWfoWindows | src/backtest/wfo.ts:67-92 | terminates and returns exactly the windows whose out-of-sample end is in range, in order; stopping at the first failure loses none |
| Wfo.BackwardRollNeverStops | src/backtest/wfo.ts:74-89 | without a forward roll, once window 0 fits every window does |
| Wfo.OosEndsIncrease | src/backtest/wfo.ts:47-51 | later windows end later for every start day, month overflow included |
| Wfo.NoHoleIff | src/backtest/wfo.ts:74-89 | for every schedule and start day: no hole between two consecutive out-of-sample periods iff roll < oos, or roll = oos and the next period's start overflows its months no further than the last end did |
| Wfo.HoleFreeStartDays | src/backtest/wfo.ts:47-51 | a start day keeps every schedule with roll <= oos free of holes iff it is at most 28 |
| GapDetection.DetectGaps | src/candles/gap-detection.ts:42-118 | both loops: the gaps between neighbours, unchanged by the merge pass; one gap for no candles |
| GapDetection.BetweenIff | src/candles/gap-detection.ts:79-95 | a gap iff the neighbours are more than 1.5 durations apart; where it runs, and its count to the nearest whole, halves upwards |
| GapDetection.NothingStored | src/candles/gap-detection.ts:63-68 | the one gap of an empty range and its count |
| GapDetection.Durations | src/candles/gap-detection.ts:17-30 | the four durations in milliseconds |
| GapDetection.MergingIsIdentityIff | src/candles/gap-detection.ts:97-117 | the merge pass changes nothing iff no two neighbouring gaps are adjacent |
| GapDetection.MergingConserves | src/candles/gap-detection.ts:97-117 | merging keeps the expected total and the outer ends |
| GapDetection.MergingFindsNothing | src/candles/gap-detection.ts:79-117 | for increasing timestamps the merge pass is the identity |
| GapDetection.GapsAreMissingSlots | src/candles/gap-detection.ts:79-95 | between the first and the last candle a slot of the grid is inside a gap iff no candle is stored there |
| GapDetection.RangeReportedIff | src/candles/gap-detection.ts:65-95 | every missing slot of the requested range is reported iff nothing is stored or the range's first and last slots are |
| GapDetection.ExpectedCountsAddUp | src/candles/gap-detection.ts:91-91 | on the grid the expected counts sum to (last - first)/duration + 1 - n |
| GapDetection.OffGridGap | src/candles/gap-detection.ts:85-93 | off the grid a gap counts at least one candle and is inverted iff the distance is under two durations |
| Normalizer.ComputeNormParams | src/vectors/normalizer.ts:139-174 | per dimension the parameters of the last `lookback` vectors |
| Normalizer.ParamsAreQuartiles | src/vectors/normalizer.ts:52-68 | the median is the second, the range the distance of the third from the first quartile, each a sorted value or whole quarters of a step beyond one |
| Normalizer.WindowLaw | src/vectors/normalizer.ts:147-151 | the window is the last `lookback` vectors, or all when there are fewer |
| Normalizer.Normalize | src/vectors/normalizer.ts:89-118 | per dimension the clamped, scaled score |
| Normalizer.NormalizedScale | src/vectors/normalizer.ts:89-118 | 0 up to three ranges below the median, 1 from three above, linear between, 0.5 without a range |
| Normalizer.AffineEquivariance | src/vectors/normalizer.ts:52-118 | scaling corpus and input by a*x + b: same output for a > 0, 1 - output for a < 0 |
| Normalizer.VectorEquivariance | src/vectors/normalizer.ts:139-174 | the same for whole vectors and any lookback, each dimension with its own scale |
| Normalizer.WindowOrderIndependent | src/vectors/normalizer.ts:139-174 | reordering the vectors of a window changes no dimension's parameters |
| Normalizer.OrderIndependent | src/vectors/normalizer.ts:158-166 | the parameters of a column do not depend on the order of its values |
| Normalizer.NormalizedMonotone | src/vectors/normalizer.ts:107-115 | the output is monotone in the input for every corpus |
| Normalizer.NormalizedInUnit | src/vectors/normalizer.ts:113-116 | the output lies in [0, 1] and the median goes to 0.5 |
| Normalizer.IqrNonNegative | src/vectors/normalizer.ts:166-169 | the interquartile range is never negative |
| WsManager.WsConnection.OnClose | src/exchanges/ws-manager.ts:207-237 | the close handler: done, normal end, or a retry after the next backoff step |
| WsManager.RetryIff | src/exchanges/ws-manager.ts:207-237 | a retry follows iff not closed on purpose and the code is neither 1000 nor 1001, after 1 s doubled per failure, 30 s from the sixth |
| WsManager.WsConnection.OnOpen | src/exchanges/ws-manager.ts:174-192 | the open handler, with the reset on reconnects only |
| WsManager.OpenConnects | src/exchanges/ws-manager.ts:174-192 | a socket that has not opened can, and then the connection is up unless closed on purpose |
| WsManager.WsConnection.OnTimer | src/exchanges/ws-manager.ts:239-251 | the retry timer: a new socket unless closed on purpose |
| WsManager.WsConnection.CloseConnection | src/exchanges/ws-manager.ts:149-157 | closing on purpose cancels the retry |
| WsManager.RunIsSafe | src/exchanges/ws-manager.ts:126-258 | any event order: at most one live socket, no timer beside it, isConnected iff the latest socket is open and not closed on purpose, and a retry is always pending unless ended |
| WsManager.RetryDelays | src/exchanges/ws-manager.ts:41-47 | delays are within 1 s and 30 s and do not decrease until a reconnect opens |
| WsManager.CloseThenSilence | src/exchanges/ws-manager.ts:149-157 | after close() no event order creates a socket or arms a timer |
| WsManager.OpenRestartsBackoffIff | src/exchanges/ws-manager.ts:174-236 | an open restarts the backoff at 1 s iff some socket had opened before or nothing had failed |
| Collector.CandleCollector.HandleCandle | src/candles/collector.ts:157-242 | cache = last thousand notifications, at most 1000 entries; notification and reconnect decisions; timestamps updated |
| Collector.RepeatsAreFarApart | src/candles/collector.ts:226-240 | any 1001 consecutive notifications are pairwise distinct |
| Collector.ClosedCandleIsNotified | src/candles/collector.ts:226-240 | no closed candle is lost |
| Collector.NotifiedIff | src/candles/collector.ts:226-240 | a closed candle is notified iff its key is not among the last thousand notified |
| Collector.DedupKeyInjective | src/candles/collector.ts:228-228 | the key is equal iff symbol, exchange, timeframe and open time are |

## Left out

- MockAdapter.MockExchangeAdapter: positions and pending orders are values in a map and a sequence that the methods reassign, so sharing of record objects is not captured; where the source divides by a size of zero (averaging up to a total of nothing, a negative part of an empty position) it gets no finite number, the model reads the quotient as zero and no law speaks of it; `fetchOHLCV`, `fetchPositions`, `fetchOrder` and the no-op methods are not modelled.
- LedgerLaws.SoloRun: for entries of positive size, as is `LedgerLaws.LongRunNeverOverdraws`; two entries of size zero already make the source divide zero by zero.
- LedgerLaws.CloseInTwoSteps: for two parts that are not negative and a first part smaller than the position; otherwise the second call finds no position.
- BacktestStrategy.Strategy: indicators, daily bias, watch detection, invalidation and the safety check are arbitrary inputs per candle, so the candle windows that feed them are not modelled; close prices, tick size and minimum order size are positive.
- BacktestEngine.BacktestRunner: loading candles and the start/end date check are not modelled.
- Metrics.CalcBasicMetrics: Sharpe ratio, profit factor, average duration and the statistics route's other averages would only add easy members.
- Sizer.CalculateSizeLaw: for positive entry price and tick size; the source divides by both.
- EvidenceGate.EvidenceIsSizable: the details record, the grade and storing the signal are not modelled.
- Executor.ExecuteEntry: event log, identifiers and log lines are not modelled; the leverage and entry orders (`OpenPosition`) and the code after the fill (`CompleteEntry`) are methods of their own.
- Executor.UncoveredIff: for a positive size and a position not opposed to the entry before the call, since a reduce-only order stops at zero.
- Exits.Ladder: the pipeline only logs the result of `processExit` (`src/daemon/pipeline.ts:1094-1108`), so the run applies the returned updates to the ticket itself; fills of the resting stop between checks are not modelled; the size is positive.
- Exits.MovedMeansStopped: when the exchange accepts an edit, the edited stop is taken to be still resting.
- ExitPipeline.StopsPileUp: fills of resting stops between candles are not modelled, and whether the exchange supports editing is the same on every candle.
- TicketStore.Database: rows are never deleted, foreign keys other than parent to ticket are not modelled, isolation finer than one transaction or statement is not modelled, and labelling is reduced to whether it fails.
- Reconciliation.ComparePositions: nothing is claimed about orphaned tickets of an exchange whose fetch failed; they are compared like any other.
- Reconciliation.RunOnce: an emergency close and the event logged after it are one action that throws or not; Slack alerts and durations are not modelled.
- HistoryLoader.BuildSegments: invalid dates and dates outside the range of `Date` are not modelled; download and parsing are I/O.
- Wfo.GenerateWfoWindows: requires a positive roll or a first window that does not fit, the exact condition for the loop to end.
- GapDetection.DetectGaps: the open times are given, strictly increasing as the query and the unique index deliver them.
- Normalizer.Normalize: vectors have all 202 dimensions and finite entries; Float32 and floating-point rounding, NaN and infinities are not modelled.
- WsManager.WsConnection: message and error callbacks, `send` and the manager's table of connections are not modelled.
- Collector.CandleCollector: storing candles and running the callbacks are I/O.
- The daemon pipeline, exchange adapters, HTTP routes, the user interface, indicator formulas, configuration loading, labelling, nearest-neighbour decisions and identifier generation are I/O, foreign code or would only add easy members.
