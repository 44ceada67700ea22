# Verified model of the trading core

This project models the stateful and arithmetic core of the trading platform in Dafny and proves what that core is
for. `dafny verify dfyconfig.toml` checks all of it. Objects the TypeScript code updates in place are classes, its loops are
loops with invariants, and each method is tied to a specification function about which the properties below are
proved. Money, prices and quantities are exact reals; times and counters are unbounded integers; roundings are modelled where
the code rounds.

| file | part of the system |
|---|---|
| PaperExchange, LotMatching, LotMatchingFifo, TradeRecords, CashIdentity, Equity | backtest accounting: exchange, FIFO matcher, equity curve |
| VenueMargin, Rebalance, MarginReport, SafeRebalancing | margin health and the greedy collateral rebalancer |
| KillswitchModel, Killswitch, OrderExecutor | circuit breaker and the order gate |
| LeaseKeys, LeaseCoordinator | scheduler leases |
| RateLimiter, CreditLedger | API rate windows, deliberation credits |
| JsonText, CanonicalJson, AuditLedger | canonical JSON and the hash-chained ledger |
| CrossDomain, BasisCalculator | two-leg execution, AMM and order-book arbitrage |
| CandleFetch | backwards-paging candle download |
| Wrappers, ExchangeTypes, Rounding, Arithmetic, Totals, Counting, Sorting, Collecting, TextSplit | shared vocabulary and its lemmas |

Where an execution awaits something (an order, a trade leg), each stretch between two awaits is one atomic step, and the
properties hold for every interleaving of such steps. Clocks, the row a query returns, the answers of an exchange, the key
comparator and the hash function are parameters.

## Findings

Places where the code does less, or more, than its description says. Each names its lemmas and source lines.

- The candle fetch loses the candle at `startMs` when a page begins one millisecond later, or when `startMs = endMs`; in all
  other cases the pages equal the range query (src/forest/backtest/data-fetcher.ts:33, :60; `CandleFetch.FetchIsRangeQuery`,
  `SingleMomentIsLost`, `PageEdgeIsLost`).
- A cache hit is right exactly if no candle of the wanted range lies before the first cached candle. It can be wrong even
  inside the range that was saved, when that one had lost its first candle (src/forest/backtest/data-fetcher.ts:22-26;
  `CandleFetch.CacheAnswersExactly`, `SavedAnswersExactly`, `LostCandleStaysLost`, `EarlierCandleIsMissed`).
- The audit chain links to the newest row by `created_at`. The last hash covers every entry exactly when all times but the last
  rise strictly; otherwise two different ledgers can end in the same hash (src/forest/flight-recorder/audit-ledger.ts:63-67;
  `AuditLedger.LedgerIsTamperEvidentExactly`, `TiesHideAnEntry`, `TiedClockForks`).
- The canonical text of a value is independent of key order exactly if the comparator orders the keys of any two fields with a
  value in each of its objects. The code uses `localeCompare`, which section 22.1.3.12 of ECMA-262 (2024) requires to return 0
  for canonically equivalent strings such as a composed and a decomposed accented letter (src/lib/canonical-json.ts:60;
  `CanonicalJson.OrderInsensitiveExactlyWhenToldApart`, `TwoTiedKeys`). The audit payload is not affected
  (`AuditLedger.PayloadDecidesEntry`).
- A fill can halt for drawdown only if the drawdown limit is not positive or is below the daily loss limit; under the defaults
  (15 and 10) that branch is dead. With a non-positive limit even a fill without loss can halt
  (src/tree/bot/killswitch-evaluator.ts:62-77; `KillswitchModel.DrawdownHaltPossible`,
  `ProfitCanHalt`).
- A halt whose deadline is time 0 never cools down (src/tree/bot/killswitch.ts:34;
  `KillswitchModel.CoolsDownExactlyUnlessZero`).
- A venue status uses the exact utilization and the deficit filter the rounded one. A venue can be listed for rebalancing while
  its status does not say so, and its status can say so while it is not listed
  (src/tree/margin/collateral-rebalance-router.ts:40, src/tree/margin/synthetic-margin-calculator.ts:65-78;
  `VenueMargin.StatusAndTriggerDisagree`, `MarginReport.ListedButOnlyWarned`, `FlaggedButNotListed`).
- The rebalancer never makes a venue both send and receive, even when the target exceeds the trigger threshold
  (src/tree/margin/collateral-rebalance-router.ts:43-52; `SafeRebalancing.TransfersAreSafe`).
- The rate limiter described as a sliding window allows 2 * maxRequests - 1 calls in one window length, and that many are
  reachable (src/forest/api/rate-limiter.ts:31-52; `RateLimiter.RateIsBounded`, `RateBoundIsTight`).
- Lease keys of workspaces whose ids contain a colon can coincide
  (src/ee/scheduler/cloud-scheduler-coordinator.ts:42; `LeaseKeys.ColonsCollide`).
- A refused credit debit still opens the account or moves it to the tier of the request
  (src/ee/deliberation-cloud/llm-credit-ledger.ts:82-86; `CreditLedger.RefusedDebitStores`, `RefusedDebitOpensAccount`).
- An order the orchestrator rejects, whose profit is 0, counts as a win (src/tree/bot/bot-order-executor.ts:28-31,
  src/tree/bot/bot-order-executor-dispatch.ts:12-25; `OrderExecutor.RejectionsAreWins`, `RefusedOrderWins`).
- The paper exchange accepts a sell of units it does not hold and the matcher ignores them, so the cash identity is off by
  what they bring in; without a cutoff, and as long as every unit sold brings in something, it holds exactly for covered
  sells (src/forest/backtest/paper-exchange.ts:56-58,
  src/forest/backtest/metrics-trades.ts:36; `CashIdentity.GapIsStraysLessDust`, `NakedSellOpensGap`,
  `CashMatchesTradesExactlyWhenCovered`).

## Model

| member | source | states |
|---|---|---|
| `PaperExchange.PaperExchange.constructor` | src/forest/backtest/paper-exchange.ts:26-35 | A new exchange has the given cash, fee and slippage, no fills and no candle. |
| `PaperExchange.PaperExchange.SetTimestamp` | src/forest/backtest/paper-exchange.ts:37 | Sets the candle time and nothing else. |
| `PaperExchange.PaperExchange.SetCandleIndex` | src/forest/backtest/paper-exchange.ts:38 | Sets the candle index and nothing else. |
| `PaperExchange.PaperExchange.PlaceOrder` | src/forest/backtest/paper-exchange.ts:44-62 | In terms of request and receipt: the price is the requested one moved by the slippage per cent against the trader, the fee its per cent of what was traded; cash changes by exactly that, one such fill is logged, and a buy is refused, changing nothing, if and only if its price and fee exceed the cash. |
| `PaperExchange.PaperExchange.PlaceMarketOrder` | src/forest/backtest/paper-exchange.ts:64-81 | The same for a market order, at the price passed in. |
| `PaperExchange.PriceOf` | src/forest/backtest/paper-exchange.ts:46 | The requested price, or zero. |
| `PaperExchange.OrderIsExecuted` | src/forest/backtest/paper-exchange.ts:44-81 | The same of the order step that the run-level results are about. |
| `PaperExchange.CapitalFollowsFills` | src/forest/backtest/paper-exchange.ts:44-81 | Over any order stream the cash is the starting capital plus the cash flows of the logged fills. |
| `PaperExchange.CapitalNeverNegative` | src/forest/backtest/paper-exchange.ts:44-81 | With fee and slippage in 0..100 no order stream drives the cash below zero, and no logged fee exceeds its notional. |
| `PaperExchange.RoundTripNeverGains` | src/forest/backtest/paper-exchange.ts:44-81 | Buying and selling back the same quantity at one price never leaves more cash than before. |
| `TradeRecords.BuildTradesFromFills` | src/forest/backtest/metrics-trades.ts:22-71 | The two nested loops end and emit the trades of the lot book of LotMatchingFifo and CashIdentity; each joins a buy to a later sell of the log, with their times and prices, fees and profit to the cent, percentage and minutes rounded; together they trade the units sold less the leftovers. |
| `TradeRecords.MatchesJoinFills` | src/forest/backtest/metrics-trades.ts:41-58 | Every match joins a lot bought by one fill to a later sell. |
| `TradeRecords.TradeTells` | src/forest/backtest/metrics-trades.ts:43-58 | The figures of a trade, recomputed from its two fills. |
| `TradeRecords.TradedUnits` | src/forest/backtest/metrics-trades.ts:42-61 | The units traded are the units sold but for the leftovers. |
| `LotMatchingFifo.FifoHolds` | src/forest/backtest/metrics-trades.ts:26-68 | The lots are exactly the purchases; in each, bought = matched + remaining; trades take lots in purchase order; only lots down to the cutoff are dropped. |
| `LotMatchingFifo.EarlierLotsFirst` | src/forest/backtest/metrics-trades.ts:40-66 | Once a lot has been matched, every earlier lot holds no more than the cutoff. |
| `LotMatchingFifo.FewTrades` | src/forest/backtest/metrics-trades.ts:26-68 | At most as many trades as dropped lots and sells together, hence as fills; units sold = units matched + leftovers. |
| `LotMatchingFifo.ExitsInOrder` | src/forest/backtest/metrics-trades.ts:26-68 | On chronological fills trades come out in exit order and each is entered before it is left. |
| `LotMatchingFifo.QuantitiesNonNegative` | src/forest/backtest/metrics-trades.ts:40-66 | With non-negative fills no quantity in the book is negative and a dropped lot holds at most the cutoff. |
| `LotMatchingFifo.CoveredLeavesDust` | src/forest/backtest/metrics-trades.ts:40-66 | A sell that the open lots cover is matched down to the cutoff. |
| `LotMatchingFifo.NothingIsDust` | src/forest/backtest/metrics-trades.ts:40-65 | The cutoff, exactly: only more than it stays open or is traded, but for whole lots bought smaller, and a sell ends with at most it or with no lot left. |
| `CashIdentity.LedgerBalances` | src/forest/backtest/metrics-trades.ts:26-68 | Exact for every fill list and cutoff: cash flow + cost of open lots + cost of dropped dust + orphan fees = unrounded profits + proceeds of unmatched units. |
| `CashIdentity.GapIsStraysLessDust` | src/forest/backtest/metrics-trades.ts:22-71 | Exact for every order stream, covered or not: cash + cost of open lots - starting capital - unrounded profits = proceeds of unmatched units - dropped dust - orphan fees. |
| `CashIdentity.NakedSellOpensGap` | src/forest/backtest/metrics-trades.ts:36 | A sell without any lot leaves no trade and opens a gap of all it brings in, at any cutoff. |
| `CashIdentity.CashMatchesTrades` | src/forest/backtest/metrics-trades.ts:22-71 | For any orders with covered sells: cash + cost of open lots - starting capital - unrounded profits is within cutoff units per dropped lot (below) and per sell remainder (above). |
| `CashIdentity.CashMatchesTradesExactly` | src/forest/backtest/metrics-trades.ts:22-71 | With a zero cutoff that identity is exact. |
| `CashIdentity.CashMatchesTradesExactlyWhenCovered` | src/forest/backtest/metrics-trades.ts:22-71 | With a zero cutoff, and if every unit sold brings in something, it is exact if and only if all sells are covered by open lots. |
| `CashIdentity.ReportedPnlIsClose` | src/forest/backtest/metrics-trades.ts:54 | The reported cent-rounded profits differ in total by at most half a cent per trade. |
| `Equity.CreditTrades` | src/forest/backtest/metrics.ts:30-33 | The inner pointer loop leaves the running sum at the pnl of all trades exited by the candle, wherever they stand in the list. |
| `Equity.BuildEquity` | src/forest/backtest/metrics.ts:17-41 | On trades in exit order and ascending candles the merge draws exactly the independently defined curve, with each drawdown the missing per cent of the peak. |
| `Equity.PeakIsHighest` | src/forest/backtest/metrics.ts:25-37 | The peak of a drawdown is attained by, and at least as high as, the starting capital and every earlier equity. |
| `Equity.CurveIsPoints` | src/forest/backtest/metrics.ts:34-36 | Each point of that curve is starting capital plus the pnl of all trades exited by its time, with the drawdown from that peak. |
| `Equity.PointTells` | src/forest/backtest/metrics.ts:34-36 | Equity and drawdown of a point of the curve, without dividing. |
| `Equity.TradesAreByExit` | src/forest/backtest/metrics-trades.ts:26-68 | Trades of chronological fills satisfy the order the merge relies on. |
| `Equity.EquityMatchesCash` | src/forest/backtest/metrics.ts:17-41 | Exchange, lot matcher and curve agree: when the candles reach the last fill, the equity of the last point of the curve is the cash + cost of open lots up to half a cent per trade and the dust. |
| `VenueMargin.CalculateEffectiveCollateral` | src/tree/margin/synthetic-margin-calculator.ts:16-35 | Cent-rounded sums of the positive values with and without clamped haircuts, and 0 <= effective <= nominal. |
| `VenueMargin.CalculateRequiredMaintenanceMargin` | src/tree/margin/synthetic-margin-calculator.ts:37-46 | Cent-rounded sum over the positions with positive notional and rate; never negative. |
| `VenueMargin.BalanceCounts` | src/tree/margin/synthetic-margin-calculator.ts:24-28 | What a balance counts: nothing without positive value, a half for an unknown asset, never more than all of it. |
| `VenueMargin.PositionCounts` | src/tree/margin/synthetic-margin-calculator.ts:42-43 | What a position counts. |
| `VenueMargin.HealthIsRead` | src/tree/margin/synthetic-margin-calculator.ts:55-80 | The figures of a venue's health, without dividing. |
| `VenueMargin.EvaluateVenueMarginHealth` | src/tree/margin/synthetic-margin-calculator.ts:48-82 | Status by the thresholds and 0.6 as shares of the collateral, utilization to four decimals, liquidation distance in cents; collateral, margin and utilization are never negative. |
| `VenueMargin.StatusAndTriggerDisagree` | src/tree/margin/synthetic-margin-calculator.ts:55-80 | For every configuration: listed but not flagged, and flagged but not listed, each hold exactly for the utilizations between the flagging threshold and the one that rounding makes of the rebalance threshold. |
| `MarginReport.CalculatePortfolioMarginReport` | src/tree/margin/collateral-rebalance-router.ts:18-89 | The whole report, for every configuration: venue health, rounded totals, global deficit, transfers exactly when some venue is in deficit and the portfolio is not; each from a venue below the target to one at the trigger, with their ids, the amount to half a cent and both utilizations to four decimals. |
| `MarginReport.NoSurplusWithoutTarget` | src/tree/margin/collateral-rebalance-router.ts:48-52 | With a target of zero or less no venue is in surplus, so the division by the target never matters. |
| `MarginReport.ListedButOnlyWarned` | src/tree/margin/synthetic-margin-calculator.ts:63-78 | A concrete venue at 74.996 per cent that is listed as a deficit at a threshold of 75 per cent while its status is only a warning. |
| `MarginReport.FlaggedButNotListed` | src/tree/margin/synthetic-margin-calculator.ts:63-78 | Concrete venues that are flagged and not listed: a threshold of more than four decimals, and one above the critical threshold. |
| `MarginReport.StartIsFresh` | src/tree/margin/collateral-rebalance-router.ts:39-55 | The two lists hold exactly the selected venues, one entry each, no negative amount, largest first. |
| `MarginReport.PlanJoins` | src/tree/margin/collateral-rebalance-router.ts:39-71 | Every planned transfer joins the very venues its slots name, one below the target and one at the trigger. |
| `MarginReport.ReportedTotalIsClose` | src/tree/margin/collateral-rebalance-router.ts:72 | The reported amounts differ in total from the exact ones by at most half a cent each. |
| `MarginReport.GlobalDeficitMeans` | src/tree/margin/collateral-rebalance-router.ts:31-32 | A global deficit means margin of at least all the collateral, or any without collateral. |
| `SafeRebalancing.ListsAreExact` | src/tree/margin/collateral-rebalance-router.ts:39-55 | Who is on the two lists and how far each is from the target, read off the venues. |
| `SafeRebalancing.ListsStandLargestFirst` | src/tree/margin/collateral-rebalance-router.ts:46-55 | Both lists stand largest first. |
| `Rebalance.SettleAll` | src/tree/margin/collateral-rebalance-router.ts:57-78 | The nested loops over the two arrays compute the specified sweep, and report of each transfer the two venues, the amount to half a cent and the utilizations it leaves. |
| `Rebalance.SweepInvariant` | src/tree/margin/collateral-rebalance-router.ts:57-78 | Per venue and in total, what entries lost is what transfers carry; every transfer joins a listed surplus and a listed deficit and is at least the minimum. |
| `Rebalance.MovesTheOptimum` | src/tree/margin/collateral-rebalance-router.ts:57-78 | With a minimum of zero or less the loops move exactly min(total need, total surplus). |
| `Rebalance.NoPlanMovesMore` | src/tree/margin/collateral-rebalance-router.ts:57-78 | No feasible plan of any shape moves more than that. |
| `Rebalance.SweepIsFeasible` | src/tree/margin/collateral-rebalance-router.ts:57-78 | The plan of the loops is feasible in the same sense. |
| `Rebalance.NothingLeftToMove` | src/tree/margin/collateral-rebalance-router.ts:59-61 | When the loops stop, every remaining pair could exchange only less than the minimum. |
| `Rebalance.EntriesTakeTurns` | src/tree/margin/collateral-rebalance-router.ts:57-60 | Without a positive minimum no entry is touched as long as an earlier, no smaller one is not used up. |
| `Rebalance.ShortfallIsBounded` | src/tree/margin/collateral-rebalance-router.ts:61 | With a positive minimum the shortfall against the optimum is at most one minimum per entry of one of the lists. |
| `Rebalance.FewTransfers` | src/tree/margin/collateral-rebalance-router.ts:57-76 | At most deficits + surpluses - 1 transfers. |
| `SafeRebalancing.TransfersAreSafe` | src/tree/margin/collateral-rebalance-router.ts:39-78 | Total collateral is conserved; a sender keeps margin <= target * collateral; a receiver is not lifted beyond the target; nobody does both; bystanders are untouched. No assumption on the configuration. |
| `SafeRebalancing.EnoughSurplusCuresEveryDeficit` | src/tree/margin/collateral-rebalance-router.ts:57-78 | With enough surplus and no positive minimum every venue in need ends exactly at the target collateral. |
| `SafeRebalancing.PlanIsShort` | src/tree/margin/collateral-rebalance-router.ts:57-76 | The plan has fewer transfers than the two lists have entries. |
| `KillswitchModel.CountersAreHistory` | src/tree/bot/killswitch-orders.ts:20-26 | After any run of events dailyPnl is the sum, and consecutiveLosses the losing suffix, of the fills counted since the last reset. |
| `KillswitchModel.FillHaltsExactlyOnBreach` | src/tree/bot/killswitch-evaluator.ts:46-80 | A counted fill halts if and only if a limit is reached; the reason is the first limit reached; drawdown, halt time and deadline are as specified. |
| `KillswitchModel.DrawdownHaltPossible` | src/tree/bot/killswitch-evaluator.ts:62-77 | Some run halts for drawdown if and only if maxDrawdownPct <= 0 or maxDrawdownPct < maxDailyLossPct. |
| `KillswitchModel.HaltFieldsAlwaysAgree` | src/tree/bot/killswitch-actions.ts:14-32 | In every reachable state halted <=> cooldownUntil is set, and a halt has a reason, a time and a deadline one cooldown later. |
| `KillswitchModel.HaltEndsExactlyOn` | src/tree/bot/killswitch.ts:19-36 | A halt ends exactly on resume, enable, reset, or an enabled check past the deadline; any other event keeps reason, time, deadline and (but for a daily reset) counters. |
| `KillswitchModel.HaltIsLatched` | src/tree/bot/killswitch.ts:17-36 | Over whole runs without such an event the halt stays the same halt and trading is refused until the deadline. |
| `KillswitchModel.CoolsDownExactlyUnlessZero` | src/tree/bot/killswitch.ts:34 | A halt can ever cool down if and only if its deadline is not time zero. |
| `KillswitchModel.EventsDo` | src/tree/bot/killswitch.ts:17-36 | What each event other than a fill does to every field. |
| `KillswitchModel.AskingDoes` | src/tree/bot/killswitch.ts:34 | When trading is enabled, and what asking changes. |
| `KillswitchModel.DisabledExactlyByLastSwitch` | src/tree/bot/killswitch.ts:19-27 | After any run the switch is disabled if and only if the last of its Enable, Disable and Reset events is a Disable. |
| `KillswitchModel.DisableRefuses` | src/tree/bot/killswitch.ts:19-34 | From a Disable until an Enable or Reset trading is refused at every moment and no fill is counted. |
| `KillswitchModel.PeakIsHighestCapital` | src/tree/bot/killswitch.ts:17-26 | After any run the peak is the highest of zero and the capitals registered or reported since the last reset. |
| `KillswitchModel.DayBeganAtLastReset` | src/tree/bot/killswitch-reset.ts:33 | dailyStartTime is the time of the last reset. |
| `Killswitch.KillswitchState.constructor` | src/tree/bot/killswitch-reset.ts:12-25 | The initial state. |
| `Killswitch.BotStateSummary.constructor` | src/tree/bot/killswitch.ts:17 | A registered bot starts with no profit, no losses and its capital. |
| `Killswitch.ExecuteKillswitchHalt` | src/tree/bot/killswitch-actions.ts:14-19 | In-place halt: latches, sets reason, time and deadline; a second halt changes nothing. |
| `Killswitch.ExecuteKillswitchResume` | src/tree/bot/killswitch-actions.ts:27-30 | In-place resume clears the halt, its reason and its deadline. |
| `Killswitch.HandleOrderFilled` | src/tree/bot/killswitch-orders.ts:11-29 | In-place fill handling is the Fill transition; a missing pnl is zero. |
| `Killswitch.ResetKillswitchDailyState` | src/tree/bot/killswitch-reset.ts:27-40 | In-place daily reset of the state and of every registered record object; capital and the map are kept. |
| `Killswitch.Killswitch.constructor` | src/tree/bot/killswitch.ts:12-16 | Defaults 10, 5, 15 and 30 for the limits not given. |
| `Killswitch.Killswitch.RegisterBot` | src/tree/bot/killswitch.ts:17 | Files a fresh bot record object and raises the peak if its capital is higher. |
| `Killswitch.Killswitch.UnregisterBot` | src/tree/bot/killswitch.ts:18 | Forgets one bot and nothing else. |
| `Killswitch.Killswitch.Disable` | src/tree/bot/killswitch.ts:19 | The Disable transition. |
| `Killswitch.Killswitch.Enable` | src/tree/bot/killswitch.ts:20 | The Enable transition. |
| `Killswitch.Killswitch.ManualHalt` | src/tree/bot/killswitch.ts:21 | The manual halt transition. |
| `Killswitch.Killswitch.ManualResume` | src/tree/bot/killswitch.ts:22 | The manual resume transition. |
| `Killswitch.Killswitch.OnOrderFilled` | src/tree/bot/killswitch.ts:24 | The Fill transition. |
| `Killswitch.Killswitch.UpdatePeakCapital` | src/tree/bot/killswitch.ts:26 | The peak update transition. |
| `Killswitch.Killswitch.DailyReset` | src/tree/bot/killswitch.ts:36 | The midnight reset transition, with every bot record cleared in place. |
| `Killswitch.Killswitch.Reset` | src/tree/bot/killswitch.ts:27 | A new initial state object and no bots. |
| `Killswitch.Killswitch.IsTradingEnabled` | src/tree/bot/killswitch.ts:34 | Answers whether trading is enabled now, and resumes a halt that has cooled down. |
| `OrderExecutor.BotState.constructor` | src/tree/bot/bot-state.ts:9-31 | A new bot is idle, created now, with zero counters and drawdowns and no start, stop, tick, order or error. |
| `OrderExecutor.Gate` | src/tree/bot/bot-order-executor.ts:13-17 | Dispatches exactly when trading is enabled, and always when there is no killswitch. |
| `OrderExecutor.Complete` | src/tree/bot/bot-order-executor.ts:19-39 | After the answer: counters, killswitch fill and peak update, in that order, in place. |
| `OrderExecutor.BooksBalance` | src/tree/bot/bot-order-executor.ts:19-31 | Under every interleaving of bots: dispatched = pending + tallied, trades = wins + losses, wins and losses are the answers without and with a loss, profit = sum of answers. |
| `OrderExecutor.RejectionsAreWins` | src/tree/bot/bot-order-executor.ts:28-31 | When rejections carry no profit or loss, wins = wins of orders not rejected + all rejected orders. |
| `OrderExecutor.RefusedOrderWins` | src/tree/bot/bot-order-executor-dispatch.ts:8-25 | A fresh bot whose only order the orchestrator refuses has won once. |
| `OrderExecutor.NothingDispatchedWhileHalted` | src/tree/bot/bot-order-executor.ts:14-19 | From a halt on no bot dispatches anything, whatever fills, halts, daily resets or peak updates occur, until an event that ends the halt. |
| `OrderExecutor.NothingDispatchedWhileDisabled` | src/tree/bot/bot-order-executor.ts:14-19 | From a Disable on no bot dispatches anything and no fill is counted, until an Enable or Reset. |
| `OrderExecutor.DispatchAnswers` | src/tree/bot/bot-order-executor-dispatch.ts:4-26 | The exchange's answer, the orchestrator's, or a rejection without profit that echoes the request. |
| `OrderExecutor.ProfitOf` | src/tree/bot/bot-order-executor.ts:28 | A missing pnl is zero. |
| `LeaseKeys.SameKey` | src/ee/scheduler/cloud-scheduler-coordinator.ts:42 | Two lease keys coincide if and only if minute and workspace:bot text do. |
| `LeaseKeys.ColonFreeKeysAreUnique` | src/ee/scheduler/cloud-scheduler-coordinator.ts:42 | With colon-free workspace ids a key names one workspace, bot and minute. |
| `LeaseKeys.ColonsCollide` | src/ee/scheduler/cloud-scheduler-coordinator.ts:42 | With colons two different bots share a key. |
| `LeaseCoordinator.CloudSchedulerCoordinator.constructor` | src/ee/scheduler/cloud-scheduler-coordinator.ts:25 | A new coordinator holds no lease. |
| `LeaseCoordinator.CloudSchedulerCoordinator.PruneExpiredLeases` | src/ee/scheduler/cloud-scheduler-coordinator.ts:27-36 | Removes exactly the expired leases and counts them. |
| `LeaseCoordinator.CloudSchedulerCoordinator.AcquireTickLease` | src/ee/scheduler/cloud-scheduler-coordinator.ts:38-61 | Grants or refuses on the pruned store and files the lease. |
| `LeaseCoordinator.CloudSchedulerCoordinator.ActiveLeaseCount` | src/ee/scheduler/cloud-scheduler-coordinator.ts:63-72 | The number of live leases of the workspace, or of all. |
| `LeaseCoordinator.CloudSchedulerCoordinator.ClearLeases` | src/ee/scheduler/cloud-scheduler-coordinator.ts:74-76 | Empties the store. |
| `LeaseCoordinator.PruningIsInvisible` | src/ee/scheduler/cloud-scheduler-coordinator.ts:27-72 | Under a non-decreasing clock every answer of every run equals that of a store that never forgets. |
| `LeaseCoordinator.ClockGoingBackShows` | src/ee/scheduler/cloud-scheduler-coordinator.ts:27-61 | If the clock goes back it does not: a concrete run. |
| `LeaseCoordinator.GrantsAreDisjoint` | src/ee/scheduler/cloud-scheduler-coordinator.ts:44-60 | Grants under one key are valid at disjoint times. |
| `LeaseCoordinator.GrantsPerMinute` | src/ee/scheduler/cloud-scheduler-coordinator.ts:38-61 | With a fixed duration d >= 1 at most floor(59999/d) + 1 grants for a bot and minute. |
| `LeaseCoordinator.GrantsPerMinuteIsTight` | src/ee/scheduler/cloud-scheduler-coordinator.ts:38-61 | For every d a run attains that number. |
| `LeaseCoordinator.LeasesComeFromCalls` | src/ee/scheduler/cloud-scheduler-coordinator.ts:51-60 | Every lease a run leaves was there before or was granted, under its own key, by one of its calls. |
| `LeaseCoordinator.AtMostTwoLiveLeases` | src/ee/scheduler/cloud-scheduler-coordinator.ts:38-61 | If no lease lasts more than a minute, each its own time, a bot never holds more than two live leases. |
| `LeaseCoordinator.RefusalIsOwnLease` | src/ee/scheduler/cloud-scheduler-coordinator.ts:44-49 | After any run under any clock, with colon-free workspace ids, a refusal means exactly that this bot holds a live lease for this minute. |
| `RateLimiter.RateLimiter.constructor` | src/forest/api/rate-limiter.ts:12 | A new limiter has no window. |
| `RateLimiter.RateLimiter.CheckRateLimit` | src/forest/api/rate-limiter.ts:24-58 | Verdict and new window map of a call. |
| `RateLimiter.RateLimiter.Sweep` | src/forest/api/rate-limiter.ts:71-78 | The sweep removes exactly the closed windows. |
| `RateLimiter.SweepingIsInvisible` | src/forest/api/rate-limiter.ts:71-78 | Sweeps at any moments change no answer of any run. |
| `RateLimiter.RateIsBounded` | src/forest/api/rate-limiter.ts:24-58 | In any closed interval of length windowMs a key is allowed at most 2 * max(1, maxRequests) - 1 calls, over any run with other keys and sweeps. |
| `RateLimiter.RateBoundIsTight` | src/forest/api/rate-limiter.ts:24-58 | For every configuration with maxRequests >= 1 and windowMs >= 1 a run attains the bound. |
| `RateLimiter.RemainingIsExact` | src/forest/api/rate-limiter.ts:37-56 | At any moment until resetAt exactly `remaining` further calls are allowed. |
| `CreditLedger.CreditLedgerStore.constructor` | src/ee/deliberation-cloud/llm-credit-ledger.ts:60 | A new store has no account. |
| `CreditLedger.CreditLedgerStore.GetOrCreateAccount` | src/ee/deliberation-cloud/llm-credit-ledger.ts:62-80 | Opens, returns or reconciles the account and stores it. |
| `CreditLedger.CreditLedgerStore.DebitCredits` | src/ee/deliberation-cloud/llm-credit-ledger.ts:82-87 | Debits on the reconciled account; a refused debit still leaves that account stored. |
| `CreditLedger.CostCoversTokens` | src/ee/deliberation-cloud/llm-credit-ledger.ts:33-36 | The cost is the least whole number of thousands covering the tokens, times the multiplier; local models are free. |
| `CreditLedger.Allowances` | src/ee/deliberation-cloud/llm-credit-ledger.ts:21-31 | What a new account of each tier holds. |
| `CreditLedger.MismatchIsRefused` | src/ee/deliberation-cloud/llm-credit-ledger.ts:42-44 | A debit on another workspace's account is refused, and only that. |
| `CreditLedger.LedgerInvariant` | src/ee/deliberation-cloud/llm-credit-ledger.ts:59-90 | Over any run: balance = max(0, allowance - consumed), consumed = sum of successful debits <= largest allowance of any tier seen. |
| `CreditLedger.TierDetourRestores` | src/ee/deliberation-cloud/llm-credit-ledger.ts:69-78 | Any detour over tiers that returns to the first restores the account exactly. |
| `CreditLedger.WorkspacesAreIndependent` | src/ee/deliberation-cloud/llm-credit-ledger.ts:62-87 | A call about one workspace leaves every other account alone. |
| `CreditLedger.DebitSucceedsExactlyWithinAllowance` | src/ee/deliberation-cloud/llm-credit-ledger.ts:38-87 | In a reachable store a debit succeeds if and only if its cost is within what the allowance leaves; the mismatch error never occurs. |
| `CreditLedger.RefusedDebitStores` | src/ee/deliberation-cloud/llm-credit-ledger.ts:82-87 | A refused debit changes the store if and only if it opens the account or moves it to another tier, and does nothing else. |
| `CreditLedger.RefusedDebitOpensAccount` | src/ee/deliberation-cloud/llm-credit-ledger.ts:82-87 | A concrete refused debit in an empty store leaves an account. |
| `CrossDomain.CrossDomainExecutor.constructor` | src/execution/cross-domain-executor.ts:12 | The lock starts free. |
| `CrossDomain.CrossDomainExecutor.Begin` | src/execution/cross-domain-executor.ts:16-29 | Takes the lock, or refuses without touching it. |
| `CrossDomain.CrossDomainExecutor.CexDone` | src/execution/cross-domain-executor.ts:29-38 | A failed CEX leg ends the trade and frees the lock. |
| `CrossDomain.CrossDomainExecutor.DexDone` | src/execution/cross-domain-executor.ts:38-57 | A DEX leg ends the trade, or its failure starts the hedge with the lock held. |
| `CrossDomain.CrossDomainExecutor.HedgeDone` | src/execution/cross-domain-executor.ts:41-57 | The hedge ends the trade and frees the lock. |
| `CrossDomain.TradesAreExclusiveAndCovered` | src/execution/cross-domain-executor.ts:15-59 | Over every interleaving of any number of callers: at most one trade in progress, the lock held exactly then, and with a free lock filled CEX legs = DEX legs + hedges. |
| `CrossDomain.ResultsTellWhatHappened` | src/execution/cross-domain-executor.ts:15-59 | As many callers are told of a trade, a hedge, a failed CEX leg or a busy executor as there were. |
| `CrossDomain.OnlyTheHolderReleases` | src/execution/cross-domain-executor.ts:16-22 | A refused caller changes nothing but itself; only the step that ends the trade in progress frees the lock. |
| `CrossDomain.HeldLockIsReleased` | src/execution/cross-domain-executor.ts:24-58 | While the lock is held some caller is at most three answers from freeing it, whatever the answers. |
| `BasisCalculator.InputInvertsOutput` | src/arbitrage/basis-calculator.ts:4-21 | The input asked for the output of a swap is what was paid in, in both directions. |
| `BasisCalculator.OutputInvertsInput` | src/arbitrage/basis-calculator.ts:4-21 | An input is quoted exactly for the payable amounts, and buys that amount. |
| `BasisCalculator.BaseToQuoteKeepsProduct` | src/arbitrage/basis-calculator.ts:6-9 | With the fee taken off the input, a swap of base leaves the product of the reserves as it was. |
| `BasisCalculator.QuoteToBaseKeepsProduct` | src/arbitrage/basis-calculator.ts:6-10 | So does a swap of quote. |
| `BasisCalculator.CexFigures` | src/arbitrage/basis-calculator.ts:37-62 | On the CEX the fee comes on top of what is paid and off what is received. |
| `BasisCalculator.SwapKeepsProduct` | src/arbitrage/basis-calculator.ts:4-11 | A swap never empties a side nor lowers the product of the reserves. |
| `BasisCalculator.SwapBackNeverGains` | src/arbitrage/basis-calculator.ts:4-11 | Swapping there and back never gains. |
| `BasisCalculator.PickBest` | src/arbitrage/basis-calculator.ts:41-53 | The comparisons pick a best qualifying trade, the first on a tie. |
| `BasisCalculator.FindBestOpportunity` | src/arbitrage/basis-calculator.ts:23-82 | For every book, pool and size, divisions by zero included: an opportunity is found if and only if a side deep enough reaches the minimum, none with more profit; it tells its direction, the CEX price, the average pool price, the profit before and after gas, and its inputs. |
| `BasisCalculator.ProfitsNeverAddUp` | src/arbitrage/basis-calculator.ts:34-79 | The two profits together are at most minus twice the gas. |
| `BasisCalculator.AtMostOneBranchQualifies` | src/arbitrage/basis-calculator.ts:34-79 | On an uncrossed book, with fees in [0,1), gas >= 0 and minProfit > 0, the two branches never both qualify. |
| `BasisCalculator.FiniteProfits` | src/arbitrage/basis-calculator.ts:34-79 | On a liquid pool both profits are finite and are their formulas. |
| `CandleFetch.AddBatch` | src/forest/backtest/data-fetcher.ts:52-57 | Keeps each new timestamp once and loses none. |
| `CandleFetch.PageIsLatest` | src/forest/backtest/data-fetcher.ts:34-37 | The model of the server: the latest candles up to the cursor, oldest first, a thousand if there are that many. |
| `CandleFetch.FetchPages` | src/forest/backtest/data-fetcher.ts:29-69 | The paging loop ends (the cursor strictly falls) and returns the range, or the range without its first candle in just the case LosesFirst. |
| `CandleFetch.FetchOHLCV` | src/forest/backtest/data-fetcher.ts:12-77 | The whole fetch: the cached range if the last cached candle is not before the end, else the pages, and what is saved to the cache. |
| `CandleFetch.FetchIsRangeQuery` | src/forest/backtest/data-fetcher.ts:29-69 | The pages equal the one-shot range query if and only if LosesFirst does not hold, and they are always sorted without duplicates. |
| `CandleFetch.SpacedCandlesLoseNothing` | src/forest/backtest/data-fetcher.ts:29-69 | In particular they do for startMs < endMs and candles at least 2 ms apart. |
| `CandleFetch.SingleMomentIsLost` | src/forest/backtest/data-fetcher.ts:33 | The fetch of a single moment loses its candle. |
| `CandleFetch.PageEdgeIsLost` | src/forest/backtest/data-fetcher.ts:59-60 | So does a fetch over 1001 candles a millisecond apart. |
| `CandleFetch.CacheAnswersExactly` | src/forest/backtest/data-fetcher.ts:22-26 | Cached candles that are any stretch of the exchange's and answer for a range are right if and only if no candle of the range lies before the first cached one. |
| `CandleFetch.SavedAnswersExactly` | src/forest/backtest/data-fetcher.ts:22-74 | The same for what the fetch of one range saves and the fetch of another one finds, a lost first candle included. |
| `CandleFetch.LostCandleStaysLost` | src/forest/backtest/data-fetcher.ts:22-26 | A concrete saved range whose lost first candle a later hit inside the range misses. |
| `CandleFetch.EarlierCandleIsMissed` | src/forest/backtest/data-fetcher.ts:22-26 | A concrete hit that misses a candle from before the cached one. |
| `JsonText.TextUnique` | src/lib/canonical-json.ts:71 | The printed text determines the value and where it ends. |
| `JsonText.TextHasNoNewline` | src/lib/canonical-json.ts:71 | A printed text is a single line. |
| `JsonText.ArrayText` | src/lib/canonical-json.ts:71 | An array is its items between brackets with commas. |
| `JsonText.ObjectText` | src/lib/canonical-json.ts:71 | An object is its quoted keys and values between braces with colons and commas. |
| `JsonText.SimpleTexts` | src/lib/canonical-json.ts:71 | The literals, numbers, strings and escapes. |
| `CanonicalJson.Build` | src/lib/canonical-json.ts:46-61 | The recursive loops and the sort compute the specified sorted value. |
| `CanonicalJson.CleanUndefined` | src/lib/canonical-json.ts:79-93 | The recursive loops drop undefined fields at every depth. |
| `CanonicalJson.Canonicalize` | src/lib/canonical-json.ts:67-72 | Build, clean, print; no text for a bare undefined. |
| `CanonicalJson.SameTextAgrees` | src/lib/canonical-json.ts:9-93 | Under any comparator, plain values with the same text agree up to key order and undefined fields at every depth. |
| `CanonicalJson.CanonicalTextDecidesAgreement` | src/lib/canonical-json.ts:9-93 | When the comparator tells the keys of v apart, a plain value gets the text of v if and only if it agrees with v up to key order and undefined fields at every depth. |
| `CanonicalJson.CanonicalIsIdempotent` | src/lib/canonical-json.ts:67-93 | Canonicalising a canonical value changes nothing, for every value and even where keys tie. |
| `CanonicalJson.OrderInsensitiveExactlyWhenToldApart` | src/lib/canonical-json.ts:53-61 | Every plain value that agrees with v gets its text if and only if, in every object of v, the comparator orders the keys of any two fields with a value. |
| `CanonicalJson.TwoTiedKeys` | src/lib/canonical-json.ts:60 | A concrete pair of agreeing objects with different texts, for any two tied keys. |
| `CanonicalJson.OrderInsensitiveExactlyWithoutTies` | src/lib/canonical-json.ts:60 | This holds of all values if and only if no two different keys tie. |
| `AuditLedger.AuditLedger.constructor` | src/forest/flight-recorder/audit-ledger.ts:21-32 | An empty ledger. |
| `AuditLedger.AuditLedger.AppendAudit` | src/forest/flight-recorder/audit-ledger.ts:57-84 | Appends one row with the entry, the time, the hash of the row the query returned, and the hash of that, a line break and the payload, and returns its tail; without a database nothing happens. |
| `AuditLedger.AppendKeepsChain` | src/forest/flight-recorder/audit-ledger.ts:63-67 | When the clock has risen strictly the query returns the last row and appending keeps the chain, whatever the new time. |
| `AuditLedger.AppendSafeExactly` | src/forest/flight-recorder/audit-ledger.ts:63-67 | If no two rows share a hash: whatever the query may return, the next append keeps the chain if and only if the last row is strictly newer than all others. |
| `AuditLedger.TiedClockForks` | src/forest/flight-recorder/audit-ledger.ts:63-67 | Three appends in one millisecond: two runs that differ in the second entry end in the same hash. |
| `AuditLedger.PayloadDecidesEntry` | src/forest/flight-recorder/audit-ledger.ts:68-73 | Under any comparator of keys two payloads are equal if and only if the entries are, up to missing and empty fields; a payload is one line. |
| `AuditLedger.HashInputDecides` | src/forest/flight-recorder/audit-ledger.ts:49 | The hashed text determines the previous hash and the entry. |
| `AuditLedger.PayloadText` | src/forest/flight-recorder/audit-ledger.ts:68-73 | The payload, letter by letter, under a comparator that orders the four keys alphabetically. |
| `AuditLedger.OrEmpty` | src/forest/flight-recorder/audit-ledger.ts:49-72 | A missing text is an empty one. |
| `AuditLedger.EqualTailsEqualLedgers` | src/forest/flight-recorder/audit-ledger.ts:48-74 | Two chains with equal last hashes have the same length and entries, or exhibit a hash collision. |
| `AuditLedger.EqualEntriesEqualHashes` | src/forest/flight-recorder/audit-ledger.ts:48-74 | Equal entries give equal hashes, row by row. |
| `AuditLedger.PayloadIsFaithful` | src/forest/flight-recorder/audit-ledger.ts:68-73 | The ledger's payloads, under any comparator of keys, satisfy what the chain results assume of an encoding. |
| `AuditLedger.TamperEvidence` | src/forest/flight-recorder/audit-ledger.ts:48-84 | Two runs of appends, in each of which all times but the last rise strictly, that have equal last hashes appended the same entries in the same order, or exhibit a collision. |
| `AuditLedger.TiesHideAnEntry` | src/forest/flight-recorder/audit-ledger.ts:63-74 | For every hash: if an entry before the last is not newer than an earlier one, any two entry lists that differ only there have runs with equal last hashes. |
| `AuditLedger.TamperEvidentExactly` | src/forest/flight-recorder/audit-ledger.ts:48-84 | With a collision-free hash the last hash decides all entries of every run at given times if and only if all times but the last rise strictly. |
| `AuditLedger.LedgerIsTamperEvidentExactly` | src/forest/flight-recorder/audit-ledger.ts:48-84 | The same for the ledger's own payloads, under any comparator of keys. |

## Left out

- Floating point: amounts are exact reals, so the proofs bound rounding to cents and basis points but not binary rounding; infinities and NaN appear only where BasisCalculator divides by zero.
- Clock jitter: one call sees one time, although the code reads the clock more than once in a halt and in an order's completion.
- Message texts: halt reasons and lease refusals carry their figures instead of formatted text; the transfer `reason` string is omitted.
- Callbacks, telemetry, logging, the halt audit record and `emitDailyState`: they do not feed back into the state.
- Generated ids of audit rows, and the time in force of an order request, which nothing here reads.
- TradeRecords.BuildTradesFromFills: `side`, which is always 'buy', and the two unused parameters are omitted.
- MarginReport.CalculatePortfolioMarginReport: the default configuration is a parameter.
- Rebalance.SettleAll: the reported post-utilizations describe one transfer against the original collateral, so nothing about the final state is claimed of them.
- BasisCalculator.FindBestOpportunity: its inputs are finite, and a negative zero is not told from zero when it divides.
- CandleFetch.FetchOHLCV: the file behind the cache, parsing, the pause between requests and the OKX cursor are not modelled; the cached candles are a parameter and the saved ones a result; the server does not change during a fetch, answers with the latest 1000 candles up to the cursor, oldest first, and a failed or unsupported request is one error.
- CandleFetch.AddBatch: the set and the list are returned as values instead of being updated in place.
- OrderExecutor.BotState.constructor: the bot configuration carried in the state is omitted.
- OrderExecutor.Complete: needs a killswitch, as the dependency type says, although the gate tolerates a missing one; a dispatch that throws is not modelled beyond an order that stays pending.
- CrossDomain.TradesAreExclusiveAndCovered: the mock legs answer and do not throw; opportunities, order ids and transaction hashes are not carried.
- LeaseCoordinator.GrantsAreDisjoint: runs that clear the store are excluded, because clearing forgets live leases on purpose.
- CreditLedger.LedgerInvariant: token counts are whole numbers, and `resetMemoryForTesting` is omitted.
- Getters of the killswitch, the empty `updateDailyPnl`, and `recordError`.
- RateLimiter.RateIsBounded: all calls of one key carry one configuration, as in the routes that use it; the default configuration is passed in; `getRateLimitHeaders` is omitted.
- CanonicalJson.Canonicalize: Symbol, BigInt, Date, `toJSON`, cycles, `__proto__` and integer-like keys (which JavaScript reorders) are not modelled; a number is its literal, and non-finite numbers and lone surrogates are outside the model.
- AuditLedger.AuditLedger.AppendAudit: reading the tail and inserting the row is one atomic step; the digest is a function parameter whose values are not empty, and UTF-8 encoding is part of it. Times compare as numbers, as their ISO texts do for the years 0 to 9999.
- AuditLedger.EqualTailsEqualLedgers: a hash of fixed length cannot be injective, so freedom from collisions appears as the explicit alternative of a collision between the two ledgers.
- Sharpe ratio, indicators, option and market-making formulas, strategies, routers, request queue, tier tables and access control.
- User interface, HTTP routes, database schema and queries, credential handling.
