/**
 The killswitch object (src/tree/bot/killswitch.ts with its -orders, -actions and -reset helpers): a mutable
 state that the helpers update in place and a map of registered bots. Every method is one transition
 of the state machine in KillswitchModel.
 */
module Killswitch {
  import opened Wrappers
  import opened Rounding
  import opened KillswitchModel

  class BotStateSummary {
    var dailyPnl: real
    var consecutiveLosses: int
    var capital: real

    constructor (capital: real)
      ensures dailyPnl == 0.0 && consecutiveLosses == 0 && this.capital == capital
    {
      dailyPnl, consecutiveLosses, this.capital := 0.0, 0, capital;
    }
  }

  class KillswitchState {
    var enabled: bool
    var halted: bool
    var haltReason: Option<HaltReason>
    var haltTimestamp: Option<int>
    var dailyPnl: real
    var consecutiveLosses: int
    var peakCapital: real
    var currentDrawdown: real
    var cooldownUntil: Option<int>
    var dailyStartTime: int

    constructor (now: int)
      ensures View() == InitialState(now)
    {
      enabled, halted, haltReason, haltTimestamp := true, false, None, None;
      dailyPnl, consecutiveLosses, peakCapital, currentDrawdown := 0.0, 0, 0.0, 0.0;
      cooldownUntil, dailyStartTime := None, now;
    }

    function View(): State
      reads this
    {
      State(enabled, halted, haltReason, haltTimestamp, dailyPnl, consecutiveLosses, peakCapital, currentDrawdown,
            cooldownUntil, dailyStartTime)
    }
  }

  method ExecuteKillswitchHalt(state: KillswitchState, cfg: Config, reason: HaltReason, now: int)
    modifies state
    ensures state.View() == Halt(old(state.View()), cfg, reason, now)
  {
    if state.halted {
      return;
    }
    state.halted := true;
    state.haltReason := Some(reason);
    state.haltTimestamp := Some(now);
    state.cooldownUntil := Some(now + cfg.cooldownMinutes * 60000);
  }

  method ExecuteKillswitchResume(state: KillswitchState)
    modifies state
    ensures state.View() == Resume(old(state.View()))
  {
    state.halted := false;
    state.haltReason := None;
    state.cooldownUntil := None;
  }

  // A fill without a pnl counts as zero.
  method HandleOrderFilled(state: KillswitchState, cfg: Config, pnl: Option<real>, now: int)
    modifies state
    ensures state.View() == Step(cfg, old(state.View()), Fill(if pnl.Some? then pnl.value else 0.0, now))
  {
    if !state.enabled {
      return;
    }
    if state.halted {
      return;
    }
    var res := EvaluateOrderRisk(state.View(), if pnl.Some? then pnl.value else 0.0, cfg);
    state.dailyPnl := res.dailyPnl;
    state.consecutiveLosses := res.consecutiveLosses;
    state.currentDrawdown := res.currentDrawdown;
    if res.haltReason.Some? {
      ExecuteKillswitchHalt(state, cfg, res.haltReason.value, now);
    }
  }

  // Every record is cleared in place, so whoever else holds it sees it cleared.
  method ResetKillswitchDailyState(state: KillswitchState, botStates: map<string, BotStateSummary>, now: int)
    modifies state, botStates.Values
    ensures forall cfg :: state.View() == Step(cfg, old(state.View()), DailyReset(now))
    ensures forall bot :: bot in botStates.Values ==>
      bot.dailyPnl == 0.0 && bot.consecutiveLosses == 0 && bot.capital == old(bot.capital)
  {
    state.dailyPnl := 0.0;
    state.consecutiveLosses := 0;
    state.dailyStartTime := now;
    state.peakCapital := 0.0;
    state.currentDrawdown := 0.0;
    var pending := botStates.Values;
    while pending != {}
      invariant pending <= botStates.Values
      invariant forall cfg :: state.View() == Step(cfg, old(state.View()), DailyReset(now))
      invariant forall bot :: bot in botStates.Values - pending ==> bot.dailyPnl == 0.0 && bot.consecutiveLosses == 0
      invariant forall bot :: bot in botStates.Values ==> bot.capital == old(bot.capital)
    {
      var bot :| bot in pending;
      bot.dailyPnl := 0.0;
      bot.consecutiveLosses := 0;
      pending := pending - {bot};
    }
  }

  class Killswitch {
    var state: KillswitchState
    var botStates: map<string, BotStateSummary>
    var config: Config

    // A limit the caller does not give has its default.
    constructor (maxDailyLossPct: Option<real>, maxConsecutiveLosses: Option<int>, maxDrawdownPct: Option<real>,
                 cooldownMinutes: Option<int>, now: int)
      ensures fresh(state) && state.View() == InitialState(now) && botStates == map[]
      ensures config == Config(
        if maxDailyLossPct.Some? then maxDailyLossPct.value else 10.0,
        if maxConsecutiveLosses.Some? then maxConsecutiveLosses.value else 5,
        if maxDrawdownPct.Some? then maxDrawdownPct.value else 15.0,
        if cooldownMinutes.Some? then cooldownMinutes.value else 30)
    {
      config := Config(
        if maxDailyLossPct.Some? then maxDailyLossPct.value else 10.0,
        if maxConsecutiveLosses.Some? then maxConsecutiveLosses.value else 5,
        if maxDrawdownPct.Some? then maxDrawdownPct.value else 15.0,
        if cooldownMinutes.Some? then cooldownMinutes.value else 30);
      state := new KillswitchState(now);
      botStates := map[];
    }

    method RegisterBot(botId: string, capital: real)
      modifies state, this`botStates
      ensures state.View() == Step(config, old(state.View()), KillswitchModel.RegisterBot(capital))
      ensures botId in botStates && fresh(botStates[botId])
      ensures botStates == old(botStates)[botId := botStates[botId]]
      ensures var bot := botStates[botId];
        bot.dailyPnl == 0.0 && bot.consecutiveLosses == 0 && bot.capital == capital
      ensures state.peakCapital == if capital > old(state.peakCapital) then capital else old(state.peakCapital)
    {
      var bot := new BotStateSummary(capital);
      botStates := botStates[botId := bot];
      if capital > state.peakCapital {
        state.peakCapital := capital;
      }
    }

    method UnregisterBot(botId: string)
      modifies this`botStates
      ensures botStates == old(botStates) - {botId}
    {
      botStates := botStates - {botId};
    }

    method Disable()
      modifies state
      ensures state.View() == Step(config, old(state.View()), KillswitchModel.Disable)
      ensures !state.enabled && state.View() == old(state.View()).(enabled := false)
    {
      state.enabled := false;
    }

    method Enable()
      modifies state
      ensures state.View() == Step(config, old(state.View()), KillswitchModel.Enable)
      ensures state.View() == old(state.View()).(enabled := true, halted := false, cooldownUntil := None)
    {
      state.enabled := true;
      state.halted := false;
      state.cooldownUntil := None;
    }

    method ManualHalt(reason: string, now: int)
      modifies state
      ensures state.View() == Step(config, old(state.View()), KillswitchModel.ManualHalt(reason, now))
      ensures !old(state.halted) ==>
        && state.haltReason == Some(Manual(reason)) && state.haltTimestamp == Some(now)
        && state.cooldownUntil == Some(now + config.cooldownMinutes * 60 * 1000)
      ensures state.halted && (old(state.halted) ==> state.View() == old(state.View()))
    {
      ExecuteKillswitchHalt(state, config, Manual(reason), now);
    }

    method ManualResume()
      modifies state
      ensures state.View() == Step(config, old(state.View()), KillswitchModel.ManualResume)
      ensures !state.halted
      ensures old(state.halted) ==> state.haltReason == None && state.cooldownUntil == None
    {
      if state.halted {
        ExecuteKillswitchResume(state);
      }
    }

    method OnOrderFilled(pnl: Option<real>, now: int)
      modifies state
      ensures state.View() == Step(config, old(state.View()), Fill(if pnl.Some? then pnl.value else 0.0, now))
    {
      HandleOrderFilled(state, config, pnl, now);
    }

    method UpdatePeakCapital(capital: real)
      modifies state
      ensures state.View() == Step(config, old(state.View()), UpdatePeak(capital))
      ensures state.peakCapital == if capital > old(state.peakCapital) then capital else old(state.peakCapital)
      ensures DrawdownTells(state.currentDrawdown, state.peakCapital, capital)
    {
      state.peakCapital := MaxReal(state.peakCapital, capital);
      state.currentDrawdown := ComputeDrawdown(state.peakCapital, capital);
      DrawdownIsTold(state.peakCapital, capital);
    }

    // The midnight timer.
    method DailyReset(now: int)
      modifies state, botStates.Values
      ensures state.View() == Step(config, old(state.View()), KillswitchModel.DailyReset(now))
      ensures forall bot :: bot in botStates.Values ==>
        bot.dailyPnl == 0.0 && bot.consecutiveLosses == 0 && bot.capital == old(bot.capital)
      ensures state.dailyPnl == state.peakCapital == state.currentDrawdown == 0.0
      ensures state.consecutiveLosses == 0 && state.dailyStartTime == now
    {
      ResetKillswitchDailyState(state, botStates, now);
    }

    // A new state object replaces the old one.
    method Reset(now: int)
      modifies this`state, this`botStates
      ensures fresh(state) && botStates == map[]
      ensures state.View() == Step(config, old(state.View()), KillswitchModel.Reset(now))
    {
      state := new KillswitchState(now);
      botStates := map[];
    }

    /** Asking whether trading is enabled answers for the present moment, and ends a halt that has cooled down. */
    method IsTradingEnabled(now: int) returns (answer: bool)
      modifies state
      ensures answer == TradingEnabled(old(state.View()), now)
      ensures state.View() == Step(config, old(state.View()), Check(now))
      ensures var deadline := old(state.cooldownUntil);
        answer <==> old(state.enabled)
                    && (!old(state.halted) || (deadline.Some? && deadline.value != 0 && now >= deadline.value))
    {
      if !state.enabled {
        return false;
      }
      if !state.halted {
        return true;
      }
      if state.cooldownUntil.Some? && state.cooldownUntil.value != 0 && now >= state.cooldownUntil.value {
        ExecuteKillswitchResume(state);
        return true;
      }
      return false;
    }
  }
}
