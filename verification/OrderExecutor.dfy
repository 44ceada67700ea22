/**
 The order executor (src/tree/bot/bot-order-executor.ts): a gate at the killswitch, the exchange call, and
 the counters. The exchange call is awaited, so an execution is two atomic steps, Gate and Complete,
 and the steps of many bots that share a killswitch interleave.
 */
module OrderExecutor {
  import opened Wrappers
  import opened ExchangeTypes
  import opened KillswitchModel
  import opened Totals
  import opened Counting
  import Killswitch

  datatype Tallies = Tallies(totalPnl: real, totalTrades: int, winCount: int, lossCount: int)

  // A result without a pnl counts as zero.
  function ProfitOf(result: OrderResult): (profit: real)
    ensures result.pnl == Some(profit) || (result.pnl == None && profit == 0.0)
  {
    if result.pnl.Some? then result.pnl.value else 0.0
  }

  // What the dispatch answers: without an orchestrator the exchange's own result, with one the orchestrator's, and a
  // rejection without profit when the orchestrator refuses.
  function DispatchExchangeOrder(req: OrderRequest, direct: OrderResult,
                                 orchestrated: Option<Result<OrderResult, string>>, now: int): OrderResult
  {
    match orchestrated
    case None => direct
    case Some(Ok(result)) => result
    case Some(Err(_)) =>
      OrderResult(RejectedId(now), if req.exchange.Some? then req.exchange.value else "paper", req.symbol, req.side,
                  req.kind, if req.price.Some? then req.price.value else 0.0, req.quantity, 0.0, Rejected, Some(0.0),
                  None, now, Some(0.0))
  }

  // A rejection echoes the request, with nothing filled.
  lemma DispatchAnswers(req: OrderRequest, direct: OrderResult, orchestrated: Option<Result<OrderResult, string>>,
                        now: int)
    ensures var answer := DispatchExchangeOrder(req, direct, orchestrated, now);
      && (orchestrated.None? ==> answer == direct)
      && (orchestrated.Some? && orchestrated.value.Ok? ==> answer == orchestrated.value.data)
      && (orchestrated.Some? && orchestrated.value.Err? ==>
            && answer.status == Rejected && answer.filled == 0.0 && answer.pnl == Some(0.0) && answer.fee == Some(0.0)
            && answer.symbol == req.symbol && answer.side == req.side && answer.kind == req.kind
            && answer.quantity == req.quantity && answer.timestamp == now)
  {
  }

  // A completed order without loss counts as a win, whatever its status.
  function Tally(t: Tallies, pnl: real): Tallies {
    Tallies(t.totalPnl + pnl, t.totalTrades + 1, if pnl >= 0.0 then t.winCount + 1 else t.winCount,
           if pnl >= 0.0 then t.lossCount else t.lossCount + 1)
  }

  datatype BotStatus = Idle | Running | Paused | Stopped | Failed

  class BotState {
    const id: string
    const createdAt: int
    var status: BotStatus
    var startedAt: Option<int>
    var error: Option<string>
    var totalPnl: real
    var totalTrades: int
    var winCount: int
    var lossCount: int
    var maxDrawdown: real
    var currentDrawdown: real
    var stoppedAt: Option<int>
    var lastTickAt: Option<int>
    var lastOrderAt: Option<int>
    var updatedAt: int

    constructor (id: string, now: int)
      ensures this.id == id && status == Idle && createdAt == now && updatedAt == now
      ensures Counters() == Tallies(0.0, 0, 0, 0) && maxDrawdown == 0.0 && currentDrawdown == 0.0
      ensures startedAt == None && stoppedAt == None && lastTickAt == None && lastOrderAt == None && error == None
    {
      this.id, status, createdAt, updatedAt := id, Idle, now, now;
      totalPnl, totalTrades, winCount, lossCount, maxDrawdown, currentDrawdown := 0.0, 0, 0, 0, 0.0, 0.0;
      startedAt, stoppedAt, lastTickAt, lastOrderAt, error := None, None, None, None, None;
    }

    function Counters(): Tallies
      reads this
    {
      Tallies(totalPnl, totalTrades, winCount, lossCount)
    }
  }

  // Up to the exchange call. A refused order throws and dispatches nothing; without a killswitch nothing is refused.
  method Gate(ks: Killswitch.Killswitch?, now: int) returns (dispatch: bool)
    modifies if ks == null then {} else {ks.state}
    ensures ks == null ==> dispatch
    ensures ks != null ==>
      && dispatch == TradingEnabled(old(ks.state.View()), now)
      && ks.state.View() == Step(ks.config, old(ks.state.View()), Check(now))
  {
    if ks != null {
      dispatch := ks.IsTradingEnabled(now);
    } else {
      dispatch := true;
    }
  }

  // From the exchange's answer on.
  method Complete(ks: Killswitch.Killswitch, state: BotState, capital: real, result: OrderResult, orderCounter: int,
                  now: int)
    returns (counter: int)
    modifies ks.state, state`totalPnl, state`totalTrades, state`winCount, state`lossCount, state`lastOrderAt,
             state`updatedAt
    ensures counter == orderCounter + 1
    ensures state.Counters() == Tally(old(state.Counters()), ProfitOf(result))
    ensures state.totalTrades == old(state.totalTrades) + 1
    ensures state.totalPnl == old(state.totalPnl) + if result.pnl.Some? then result.pnl.value else 0.0
    ensures var lost := result.pnl.Some? && result.pnl.value < 0.0;
      && state.lossCount == old(state.lossCount) + (if lost then 1 else 0)
      && state.winCount == old(state.winCount) + (if lost then 0 else 1)
    ensures ks.state.View() == Step(ks.config, Step(ks.config, old(ks.state.View()), Fill(ProfitOf(result), now)),
                                    UpdatePeak(capital + state.totalPnl))
    ensures state.lastOrderAt == Some(now) && state.updatedAt == now
  {
    state.lastOrderAt := Some(now);
    counter := orderCounter + 1;
    state.totalTrades := state.totalTrades + 1;
    ks.OnOrderFilled(result.pnl, now);
    var pnl := ProfitOf(result);
    state.totalPnl := state.totalPnl + pnl;
    if pnl >= 0.0 {
      state.winCount := state.winCount + 1;
    } else {
      state.lossCount := state.lossCount + 1;
    }
    ks.UpdatePeakCapital(capital + state.totalPnl);
    state.updatedAt := now;
  }

  // ----- interleavings

  datatype Bot = Bot(capital: real, dispatched: nat, inFlight: nat, totals: Tallies, answers: seq<OrderResult>)

  datatype System = System(ks: State, bots: seq<Bot>)

  // What can happen next: a bot tries an order, a pending order is answered, or anything else
  // happens to the killswitch.
  datatype Action =
    | Attempt(bot: nat, now: int)
    | Answer(bot: nat, result: OrderResult, now: int)
    | Other(event: Event)

  predicate Possible(sys: System, a: Action) {
    match a
    case Attempt(b, _) => b < |sys.bots|
    case Answer(b, _, _) => b < |sys.bots| && sys.bots[b].inFlight > 0
    case Other(_) => true
  }

  function Next(cfg: Config, sys: System, a: Action): System
    requires Possible(sys, a)
  {
    match a
    case Attempt(b, now) =>
      var bot := sys.bots[b];
      var bot' := if TradingEnabled(sys.ks, now)
                  then bot.(dispatched := bot.dispatched + 1, inFlight := bot.inFlight + 1) else bot;
      System(Step(cfg, sys.ks, Check(now)), sys.bots[b := bot'])
    case Answer(b, result, now) =>
      var bot := sys.bots[b];
      var totals := Tally(bot.totals, ProfitOf(result));
      System(Step(cfg, Step(cfg, sys.ks, Fill(ProfitOf(result), now)), UpdatePeak(bot.capital + totals.totalPnl)),
             sys.bots[b := bot.(inFlight := bot.inFlight - 1, totals := totals, answers := bot.answers + [result])])
    case Other(e) => System(Step(cfg, sys.ks, e), sys.bots)
  }

  ghost predicate Path(cfg: Config, sys: System, actions: seq<Action>, sys': System)
    decreases |actions|
  {
    if actions == [] then sys' == sys
    else Possible(sys, actions[0]) && Path(cfg, Next(cfg, sys, actions[0]), actions[1..], sys')
  }

  predicate IsWin(result: OrderResult) {
    ProfitOf(result) >= 0.0
  }

  predicate IsLoss(result: OrderResult) {
    ProfitOf(result) < 0.0
  }

  predicate IsRejected(result: OrderResult) {
    result.status == Rejected
  }

  // A win of an order that was not rejected.
  predicate IsEarnedWin(result: OrderResult) {
    IsWin(result) && !IsRejected(result)
  }

  // The books of one bot: every dispatched order is pending or tallied, every tallied one is a win
  // or a loss by its profit, and the total profit is the sum of the answers.
  ghost predicate Balanced(bot: Bot) {
    && bot.dispatched == bot.inFlight + bot.totals.totalTrades
    && bot.totals.totalTrades == |bot.answers| == bot.totals.winCount + bot.totals.lossCount
    && bot.totals.winCount == CountOf(IsWin, bot.answers) && bot.totals.lossCount == CountOf(IsLoss, bot.answers)
    && bot.totals.totalPnl == Total(ProfitOf, bot.answers)
  }

  lemma AnswerKeepsBalance(bot: Bot, result: OrderResult)
    requires Balanced(bot) && bot.inFlight > 0
    ensures Balanced(bot.(inFlight := bot.inFlight - 1, totals := Tally(bot.totals, ProfitOf(result)),
                          answers := bot.answers + [result]))
  {
    TotalPush(ProfitOf, bot.answers, result);
    CountPush(IsWin, bot.answers, result);
    CountPush(IsLoss, bot.answers, result);
  }

  /** Under every interleaving the books of every bot balance. */
  lemma {:induction false} BooksBalance(cfg: Config, sys: System, actions: seq<Action>, sys': System)
    requires Path(cfg, sys, actions, sys') && forall b :: b in sys.bots ==> Balanced(b)
    ensures |sys'.bots| == |sys.bots| && forall b :: b in sys'.bots ==> Balanced(b)
    decreases |actions|
  {
    if actions != [] {
      var a := actions[0];
      if a.Answer? {
        assert sys.bots[a.bot] in sys.bots;
        AnswerKeepsBalance(sys.bots[a.bot], a.result);
      } else if a.Attempt? {
        assert sys.bots[a.bot] in sys.bots;
      }
      BooksBalance(cfg, Next(cfg, sys, a), actions[1..], sys');
    }
  }

  /** Rejections are wins: when they carry no profit or loss, as the orchestrator's do, the wins on the books exceed the
      wins of orders that were not rejected by just the number of rejected orders. */
  lemma RejectionsAreWins(bot: Bot)
    requires Balanced(bot)
    requires forall a :: a in bot.answers && a.status == Rejected ==> ProfitOf(a) == 0.0
    ensures bot.totals.winCount == CountOf(IsEarnedWin, bot.answers) + CountOf(IsRejected, bot.answers)
  {
    CountSplit(IsEarnedWin, IsRejected, IsWin, bot.answers);
  }

  // For instance a fresh bot whose only order the orchestrator refuses has won once.
  lemma RefusedOrderWins(cfg: Config, capital: real, now: int, req: OrderRequest, direct: OrderResult, reason: string)
    ensures var start := System(InitialState(now), [Bot(capital, 0, 0, Tallies(0.0, 0, 0, 0), [])]);
      var tried := Next(cfg, start, Attempt(0, now));
      var answer := Answer(0, DispatchExchangeOrder(req, direct, Some(Err(reason)), now), now);
      && Possible(tried, answer)
      && Next(cfg, tried, answer).bots[0].totals == Tallies(0.0, 1, 1, 0)
  {
  }

  // No action that could end a halt with this deadline.
  ghost predicate QuietActions(deadline: Option<int>, actions: seq<Action>) {
    forall a :: a in actions ==>
      && (a.Other? ==> Quiet(deadline, [a.event]))
      && (a.Attempt? ==> deadline.None? || deadline.value == 0 || a.now < deadline.value)
  }

  lemma QuietStep(cfg: Config, sys: System, a: Action)
    requires sys.ks.halted && Possible(sys, a) && QuietActions(sys.ks.cooldownUntil, [a])
    ensures var sys' := Next(cfg, sys, a);
      && SameHalt(sys.ks, sys'.ks) && |sys'.bots| == |sys.bots|
      && (forall b :: 0 <= b < |sys.bots| ==> sys'.bots[b].dispatched == sys.bots[b].dispatched)
      && (!(a.Other? && a.event.DailyReset?) ==>
            sys'.ks.dailyPnl == sys.ks.dailyPnl && sys'.ks.consecutiveLosses == sys.ks.consecutiveLosses)
  {
    assert a in [a];
    match a
    case Attempt(b, now) => HaltEndsExactlyOn(cfg, sys.ks, Check(now));
    case Answer(b, result, now) =>
      var filled := Fill(ProfitOf(result), now);
      HaltEndsExactlyOn(cfg, sys.ks, filled);
      HaltEndsExactlyOn(cfg, Step(cfg, sys.ks, filled),
                        UpdatePeak(sys.bots[b].capital + Tally(sys.bots[b].totals, ProfitOf(result)).totalPnl));
    case Other(e) =>
      assert e in [e];
      HaltEndsExactlyOn(cfg, sys.ks, e);
  }

  /** The latch, end to end: while a halt lasts no bot dispatches an order, whatever bots try, whatever answers to
      earlier orders arrive and whatever else happens, and the halt stays the same halt. */
  lemma {:induction false} NothingDispatchedWhileHalted(cfg: Config, sys: System, actions: seq<Action>, sys': System)
    requires Path(cfg, sys, actions, sys')
    requires sys.ks.halted && QuietActions(sys.ks.cooldownUntil, actions)
    ensures SameHalt(sys.ks, sys'.ks) && |sys'.bots| == |sys.bots|
    ensures forall b :: 0 <= b < |sys.bots| ==> sys'.bots[b].dispatched == sys.bots[b].dispatched
    decreases |actions|
  {
    if actions != [] {
      var a := actions[0];
      assert a in actions && forall x :: x in [a] ==> x in actions;
      QuietStep(cfg, sys, a);
      NothingDispatchedWhileHalted(cfg, Next(cfg, sys, a), actions[1..], sys');
    }
  }

  // No action that could enable a disabled switch.
  ghost predicate OffActions(actions: seq<Action>) {
    forall a :: a in actions && a.Other? ==> !a.event.Enable? && !a.event.Reset?
  }

  /** A disabled switch, end to end: from a Disable until an Enable or a Reset no bot dispatches an order, whatever bots
      try and whatever answers to earlier orders arrive, and no fill is counted. */
  lemma {:induction false} NothingDispatchedWhileDisabled(cfg: Config, sys: System, actions: seq<Action>, sys': System)
    requires Path(cfg, sys, actions, sys') && !sys.ks.enabled && OffActions(actions)
    ensures !sys'.ks.enabled && |sys'.bots| == |sys.bots|
    ensures forall b :: 0 <= b < |sys.bots| ==> sys'.bots[b].dispatched == sys.bots[b].dispatched
    ensures (forall a :: a in actions && a.Other? ==> !a.event.DailyReset?) ==>
      sys'.ks.dailyPnl == sys.ks.dailyPnl && sys'.ks.consecutiveLosses == sys.ks.consecutiveLosses
    decreases |actions|
  {
    if actions != [] {
      assert actions[0] in actions && forall a :: a in actions[1..] ==> a in actions;
      NothingDispatchedWhileDisabled(cfg, Next(cfg, sys, actions[0]), actions[1..], sys');
    }
  }
}
