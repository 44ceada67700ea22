/**
 The killswitch as a state machine: the risk evaluator (src/tree/bot/killswitch-evaluator.ts) and the
 transitions of src/tree/bot/killswitch.ts with its helpers, over a state value.
 */
module KillswitchModel {
  import opened Wrappers
  import opened Rounding
  import opened Totals

  // The halt messages, with the figures they carry.
  datatype HaltReason =
    | Manual(text: string)
    | MaxConsecutiveLosses(count: int)
    | DailyLossLimit(pct: real)
    | MaxDrawdown(pct: real)

  datatype Config =
    Config(maxDailyLossPct: real, maxConsecutiveLosses: int, maxDrawdownPct: real, cooldownMinutes: int)

  datatype State = State(
    enabled: bool, halted: bool, haltReason: Option<HaltReason>, haltTimestamp: Option<int>, dailyPnl: real,
    consecutiveLosses: int, peakCapital: real, currentDrawdown: real, cooldownUntil: Option<int>, dailyStartTime: int)

  datatype Evaluation =
    Evaluation(dailyPnl: real, consecutiveLosses: int, currentDrawdown: real, haltReason: Option<HaltReason>)

  function ComputeDrawdown(peakCapital: real, capital: real): real {
    if peakCapital <= 0.0 then 0.0 else AbsReal(((peakCapital - capital) / peakCapital) * 100.0)
  }

  function EvaluateConsecutiveLosses(consecutiveLosses: int, maxAllowed: int): Option<HaltReason> {
    if consecutiveLosses >= maxAllowed then Some(MaxConsecutiveLosses(consecutiveLosses)) else None
  }

  function EvaluateDailyPnl(dailyPnl: real, peakCapital: real, maxDailyLossPct: real): Option<HaltReason> {
    if peakCapital > 0.0 && dailyPnl < 0.0 then
      var dailyPnlPct := AbsReal(dailyPnl / peakCapital) * 100.0;
      if dailyPnlPct >= maxDailyLossPct then Some(DailyLossLimit(dailyPnlPct)) else None
    else None
  }

  function EvaluateOrderRisk(s: State, pnl: real, cfg: Config): Evaluation {
    var dailyPnl := s.dailyPnl + pnl;
    var consecutiveLosses := if pnl < 0.0 then s.consecutiveLosses + 1 else 0;
    var lossHalt := if pnl < 0.0 then EvaluateConsecutiveLosses(consecutiveLosses, cfg.maxConsecutiveLosses) else None;
    if lossHalt.Some? then Evaluation(dailyPnl, consecutiveLosses, s.currentDrawdown, lossHalt)
    else if s.peakCapital > 0.0 then
      var dailyHalt := EvaluateDailyPnl(dailyPnl, s.peakCapital, cfg.maxDailyLossPct);
      if dailyHalt.Some? then Evaluation(dailyPnl, consecutiveLosses, s.currentDrawdown, dailyHalt)
      else
        var cur := s.peakCapital + dailyPnl;
        var drawdown := ((s.peakCapital - cur) / s.peakCapital) * 100.0;
        Evaluation(dailyPnl, consecutiveLosses, drawdown,
                   if drawdown >= cfg.maxDrawdownPct then Some(MaxDrawdown(drawdown)) else None)
    else Evaluation(dailyPnl, consecutiveLosses, s.currentDrawdown, None)
  }

  function InitialState(now: int): State {
    State(true, false, None, None, 0.0, 0, 0.0, 0.0, None, now)
  }

  function Halt(s: State, cfg: Config, reason: HaltReason, now: int): State {
    if s.halted then s
    else s.(halted := true, haltReason := Some(reason), haltTimestamp := Some(now),
            cooldownUntil := Some(now + cfg.cooldownMinutes * 60000))
  }

  function Resume(s: State): State {
    s.(halted := false, haltReason := None, cooldownUntil := None)
  }

  // The cooldown is over. A deadline of zero reads as "no deadline" and never is.
  predicate CooledDown(s: State, now: int) {
    s.cooldownUntil.Some? && s.cooldownUntil.value != 0 && now >= s.cooldownUntil.value
  }

  // The answer of isTradingEnabled at time now; asking resumes a halt that has cooled down.
  predicate TradingEnabled(s: State, now: int) {
    s.enabled && (!s.halted || CooledDown(s, now))
  }

  datatype Event =
    | Fill(pnl: real, now: int)
    | ManualHalt(text: string, now: int)
    | ManualResume
    | Enable
    | Disable
    | RegisterBot(capital: real)
    | UpdatePeak(capital: real)
    | DailyReset(now: int)
    | Reset(now: int)
    | Check(now: int)

  function OnFill(s: State, cfg: Config, pnl: real, now: int): State {
    if !s.enabled || s.halted then s
    else
      var res := EvaluateOrderRisk(s, pnl, cfg);
      var s' := s.(dailyPnl := res.dailyPnl, consecutiveLosses := res.consecutiveLosses,
                   currentDrawdown := res.currentDrawdown);
      if res.haltReason.Some? then Halt(s', cfg, res.haltReason.value, now) else s'
  }

  function Step(cfg: Config, s: State, e: Event): State {
    match e
    case Fill(pnl, now) => OnFill(s, cfg, pnl, now)
    case ManualHalt(text, now) => Halt(s, cfg, Manual(text), now)
    case ManualResume => if s.halted then Resume(s) else s
    case Enable => s.(enabled := true, halted := false, cooldownUntil := None)
    case Disable => s.(enabled := false)
    case RegisterBot(capital) => if capital > s.peakCapital then s.(peakCapital := capital) else s
    case UpdatePeak(capital) =>
      var peak := MaxReal(s.peakCapital, capital);
      s.(peakCapital := peak, currentDrawdown := ComputeDrawdown(peak, capital))
    case DailyReset(now) =>
      s.(dailyPnl := 0.0, consecutiveLosses := 0, dailyStartTime := now, peakCapital := 0.0, currentDrawdown := 0.0)
    case Reset(now) => InitialState(now)
    case Check(now) => if s.enabled && s.halted && CooledDown(s, now) then Resume(s) else s
  }

  ghost function Run(cfg: Config, s: State, events: seq<Event>): State {
    if events == [] then s else Step(cfg, Run(cfg, s, events[..|events| - 1]), events[|events| - 1])
  }

  // ----- the counters against the history

  // The fills that counted since the last reset: those that arrived while enabled and not halted.
  ghost function Counted(cfg: Config, s: State, events: seq<Event>): seq<real> {
    if events == [] then []
    else
      var front := events[..|events| - 1];
      CountedNext(Run(cfg, s, front), Counted(cfg, s, front), events[|events| - 1])
  }

  ghost function CountedNext(s: State, counted: seq<real>, e: Event): seq<real> {
    match e
    case Fill(pnl, _) => if s.enabled && !s.halted then counted + [pnl] else counted
    case DailyReset(_) => []
    case Reset(_) => []
    case _ => counted
  }

  // The length of the losing streak at the end.
  ghost function LosingStreak(pnls: seq<real>): nat {
    if pnls == [] || pnls[|pnls| - 1] >= 0.0 then 0 else LosingStreak(pnls[..|pnls| - 1]) + 1
  }

  ghost predicate CountersMatch(s: State, counted: seq<real>) {
    s.dailyPnl == Total(Itself, counted) && s.consecutiveLosses == LosingStreak(counted)
  }

  lemma StepKeepsCounters(cfg: Config, s: State, counted: seq<real>, e: Event)
    requires CountersMatch(s, counted)
    ensures CountersMatch(Step(cfg, s, e), CountedNext(s, counted, e))
  {
    if e.Fill? && s.enabled && !s.halted {
      TotalPush(Itself, counted, e.pnl);
      assert (counted + [e.pnl])[..|counted|] == counted;
    }
  }

  /** After any run from a fresh killswitch the two counters are the sum and the losing streak of the fills counted
      since the last reset. */
  lemma {:induction false} CountersAreHistory(cfg: Config, start: int, events: seq<Event>)
    ensures CountersMatch(Run(cfg, InitialState(start), events), Counted(cfg, InitialState(start), events))
  {
    if events != [] {
      var front := events[..|events| - 1];
      CountersAreHistory(cfg, start, front);
      StepKeepsCounters(cfg, Run(cfg, InitialState(start), front), Counted(cfg, InitialState(start), front),
                        events[|events| - 1]);
    }
  }

  // ----- the limits

  // The day's loss in per cent of the peak capital; negative for a profit.
  ghost function LossPct(dailyPnl: real, peak: real): real
    requires peak > 0.0
  {
    -dailyPnl / peak * 100.0
  }

  // The limits a counted fill of `pnl` can reach, given the day s' it leads to.
  ghost predicate TooManyLosses(cfg: Config, s': State, pnl: real) {
    pnl < 0.0 && s'.consecutiveLosses >= cfg.maxConsecutiveLosses
  }

  ghost predicate LostTooMuch(cfg: Config, s': State) {
    s'.peakCapital > 0.0 && s'.dailyPnl < 0.0 && LossPct(s'.dailyPnl, s'.peakCapital) >= cfg.maxDailyLossPct
  }

  ghost predicate FellTooFar(cfg: Config, s': State) {
    s'.peakCapital > 0.0 && LossPct(s'.dailyPnl, s'.peakCapital) >= cfg.maxDrawdownPct
  }

  lemma LossFractions(daily: real, peak: real)
    requires peak > 0.0
    ensures (peak - (peak + daily)) / peak == -daily / peak
    ensures daily < 0.0 ==> AbsReal(daily / peak) == -daily / peak && -daily / peak > 0.0
    ensures daily >= 0.0 ==> -daily / peak <= 0.0
  {
    var q := daily / peak;
    assert q * peak == daily;
    assert (-q) * peak == -daily;
    assert -daily / peak == -q;
    assert q > 0.0 ==> q * peak > 0.0;
    assert q <= 0.0 ==> q * peak <= 0.0;
  }

  /** A counted fill halts exactly when a limit is reached, so what it leaves running is within every limit. The reason
      names the first limit reached, in the order losses, daily loss, drawdown; the drawdown is refreshed only by a fill
      that passes the first two. */
  lemma FillHaltsExactlyOnBreach(cfg: Config, s: State, pnl: real, now: int)
    requires s.enabled && !s.halted
    ensures var s' := Step(cfg, s, Fill(pnl, now));
      && s'.dailyPnl == s.dailyPnl + pnl && s'.peakCapital == s.peakCapital
      && s'.consecutiveLosses == (if pnl < 0.0 then s.consecutiveLosses + 1 else 0)
      && s'.enabled && s'.dailyStartTime == s.dailyStartTime
      && (s'.halted <==> TooManyLosses(cfg, s', pnl) || LostTooMuch(cfg, s') || FellTooFar(cfg, s'))
      && (TooManyLosses(cfg, s', pnl) ==> s'.haltReason == Some(MaxConsecutiveLosses(s'.consecutiveLosses)))
      && (!TooManyLosses(cfg, s', pnl) && LostTooMuch(cfg, s') ==>
            s'.haltReason == Some(DailyLossLimit(LossPct(s'.dailyPnl, s'.peakCapital))))
      && (!TooManyLosses(cfg, s', pnl) && !LostTooMuch(cfg, s') && FellTooFar(cfg, s') ==>
            s'.haltReason == Some(MaxDrawdown(LossPct(s'.dailyPnl, s'.peakCapital))))
      && s'.currentDrawdown
         == (if s'.peakCapital > 0.0 && !TooManyLosses(cfg, s', pnl) && !LostTooMuch(cfg, s')
             then LossPct(s'.dailyPnl, s'.peakCapital) else s.currentDrawdown)
      && (s'.halted ==> s'.haltTimestamp == Some(now) && s'.cooldownUntil == Some(now + cfg.cooldownMinutes * 60000))
      && (!s'.halted ==> s'.haltReason == s.haltReason && s'.cooldownUntil == s.cooldownUntil)
  {
    if s.peakCapital > 0.0 {
      LossFractions(s.dailyPnl + pnl, s.peakCapital);
    }
  }

  ghost predicate HaltedForDrawdown(s: State) {
    s.halted && s.haltReason.Some? && s.haltReason.value.MaxDrawdown?
  }

  // The fill at the end of the run halts for drawdown.
  ghost predicate DrawdownHaltAfter(cfg: Config, start: int, events: seq<Event>, pnl: real, now: int) {
    var s := Run(cfg, InitialState(start), events);
    !s.halted && HaltedForDrawdown(Step(cfg, s, Fill(pnl, now)))
  }

  lemma NoDrawdownHalt(cfg: Config, s: State, pnl: real, now: int)
    requires 0.0 < cfg.maxDrawdownPct && cfg.maxDailyLossPct <= cfg.maxDrawdownPct && !s.halted
    ensures !HaltedForDrawdown(Step(cfg, s, Fill(pnl, now)))
  {
    if s.peakCapital > 0.0 {
      LossFractions(s.dailyPnl + pnl, s.peakCapital);
    }
  }

  // A run whose next fill halts for drawdown, when the drawdown limit is not positive.
  lemma ProfitCanHalt(cfg: Config)
    requires cfg.maxDrawdownPct <= 0.0
    ensures DrawdownHaltAfter(cfg, 0, [UpdatePeak(100.0)], -cfg.maxDrawdownPct, 0)
  {
    var s := Step(cfg, InitialState(0), UpdatePeak(100.0));
    assert [UpdatePeak(100.0)][..0] == [];
    assert Run(cfg, InitialState(0), [UpdatePeak(100.0)]) == s;
    assert s.peakCapital == 100.0 && s.dailyPnl == 0.0;
  }

  // A run whose next fill halts for drawdown, when that limit is below the daily one: a loss between
  // the two limits, a resume in case the loss halted for its own, and a fill without profit or loss.
  lemma LossBetweenLimitsCanHalt(cfg: Config)
    requires 0.0 < cfg.maxDrawdownPct < cfg.maxDailyLossPct
    ensures DrawdownHaltAfter(cfg, 0, [UpdatePeak(100.0), Fill(-cfg.maxDrawdownPct, 0), ManualResume], 0.0, 0)
  {
    var e0, e1 := UpdatePeak(100.0), Fill(-cfg.maxDrawdownPct, 0);
    assert [e0, e1, ManualResume][..2] == [e0, e1] && [e0, e1][..1] == [e0] && [e0][..0] == [];
    var s1 := Step(cfg, InitialState(0), e0);
    var s2 := Step(cfg, s1, e1);
    var s3 := Step(cfg, s2, ManualResume);
    assert Run(cfg, InitialState(0), [e0]) == s1;
    assert Run(cfg, InitialState(0), [e0, e1]) == s2;
    assert Run(cfg, InitialState(0), [e0, e1, ManualResume]) == s3;
    assert s1.peakCapital == 100.0 && s1.dailyPnl == 0.0;
    LossFractions(-cfg.maxDrawdownPct, 100.0);
    assert s3.enabled && !s3.halted && s3.dailyPnl == -cfg.maxDrawdownPct && s3.peakCapital == 100.0;
  }

  /** Which configurations can ever halt for drawdown: exactly those whose drawdown limit is not positive or lies below
      the daily loss limit. */
  lemma DrawdownHaltPossible(cfg: Config)
    ensures (exists start, events, pnl, now :: DrawdownHaltAfter(cfg, start, events, pnl, now))
       <==> cfg.maxDrawdownPct <= 0.0 || cfg.maxDrawdownPct < cfg.maxDailyLossPct
  {
    if cfg.maxDrawdownPct <= 0.0 {
      ProfitCanHalt(cfg);
    } else if cfg.maxDrawdownPct < cfg.maxDailyLossPct {
      LossBetweenLimitsCanHalt(cfg);
    } else {
      forall start, events, pnl, now ensures !DrawdownHaltAfter(cfg, start, events, pnl, now) {
        if !Run(cfg, InitialState(start), events).halted {
          NoDrawdownHalt(cfg, Run(cfg, InitialState(start), events), pnl, now);
        }
      }
    }
  }

  // ----- the latch

  // The halt fields belong together: a halt has a reason, a time and a deadline one cooldown later,
  // and a deadline exists only during a halt.
  ghost predicate HaltFieldsAgree(cfg: Config, s: State) {
    && (s.halted <==> s.cooldownUntil.Some?)
    && (s.halted ==>
          && s.haltReason.Some? && s.haltTimestamp.Some?
          && s.cooldownUntil.value == s.haltTimestamp.value + cfg.cooldownMinutes * 60000)
  }

  lemma {:induction false} HaltFieldsAlwaysAgree(cfg: Config, start: int, events: seq<Event>)
    ensures HaltFieldsAgree(cfg, Run(cfg, InitialState(start), events))
  {
    if events != [] {
      HaltFieldsAlwaysAgree(cfg, start, events[..|events| - 1]);
    }
  }

  // The events that end a halt: a resume, an enable, a reset, or the question whether trading is
  // enabled once the deadline has passed (which a disabled switch does not act on).
  predicate EndsHalt(s: State, e: Event) {
    match e
    case ManualResume => true
    case Enable => true
    case Reset(_) => true
    case Check(now) => s.enabled && CooledDown(s, now)
    case _ => false
  }

  // What a halt fixes.
  ghost predicate SameHalt(s: State, s': State) {
    s'.halted && s'.haltReason == s.haltReason && s'.haltTimestamp == s.haltTimestamp
    && s'.cooldownUntil == s.cooldownUntil
  }

  /** One step: a halt ends exactly on those events; on any other, later halts and fills included, it keeps its reason,
      its time and its deadline, and the counters change only by a reset. */
  lemma HaltEndsExactlyOn(cfg: Config, s: State, e: Event)
    requires s.halted
    ensures Step(cfg, s, e).halted <==> !EndsHalt(s, e)
    ensures !EndsHalt(s, e) ==> SameHalt(s, Step(cfg, s, e))
    ensures !EndsHalt(s, e) && !e.DailyReset? ==>
      Step(cfg, s, e).dailyPnl == s.dailyPnl && Step(cfg, s, e).consecutiveLosses == s.consecutiveLosses
  {
  }

  // No event that could end a halt with this deadline.
  ghost predicate Quiet(deadline: Option<int>, events: seq<Event>) {
    forall e :: e in events ==>
      && !e.ManualResume? && !e.Enable? && !e.Reset?
      && (e.Check? ==> deadline.None? || deadline.value == 0 || e.now < deadline.value)
  }

  /** The latch over runs: until a resume, an enable, a reset or the deadline, a halt stays the same halt whatever else
      happens, and trading is refused at every moment before the deadline. */
  lemma {:induction false} HaltIsLatched(cfg: Config, s: State, events: seq<Event>)
    requires s.halted && Quiet(s.cooldownUntil, events)
    ensures SameHalt(s, Run(cfg, s, events))
    ensures forall now :: TradingEnabled(Run(cfg, s, events), now) <==>
      Run(cfg, s, events).enabled && CooledDown(s, now)
  {
    if events != [] {
      HaltIsLatched(cfg, s, events[..|events| - 1]);
    }
  }

  // A fresh killswitch, halted by hand at time t.
  ghost function HaltedAt(cfg: Config, start: int, text: string, t: int): State {
    Run(cfg, InitialState(start), [ManualHalt(text, t)])
  }

  /** A deadline of zero reads as none: a halt can ever cool down exactly if it does not put its deadline at time
      zero. */
  lemma CoolsDownExactlyUnlessZero(cfg: Config, start: int, text: string, t: int)
    ensures var s := HaltedAt(cfg, start, text, t);
      && s.halted && s.cooldownUntil == Some(t + cfg.cooldownMinutes * 60000)
      && ((exists now :: TradingEnabled(s, now)) <==> t + cfg.cooldownMinutes * 60000 != 0)
  {
    assert [ManualHalt(text, t)][..0] == [];
    var s := Step(cfg, InitialState(start), ManualHalt(text, t));
    assert Run(cfg, InitialState(start), [ManualHalt(text, t)]) == s;
    var deadline := t + cfg.cooldownMinutes * 60000;
    if deadline != 0 {
      assert TradingEnabled(s, deadline);
    }
  }

  // ----- what each event does, and what it leaves alone

  // The capital's distance from the peak in per cent of the peak, either way.
  ghost predicate DrawdownTells(drawdown: real, peak: real, capital: real) {
    if peak > 0.0 then drawdown * peak == (if capital < peak then peak - capital else capital - peak) * 100.0
    else drawdown == 0.0
  }

  lemma DrawdownIsTold(peak: real, capital: real)
    ensures DrawdownTells(ComputeDrawdown(peak, capital), peak, capital)
  {
    if peak > 0.0 {
      var q := (peak - capital) / peak;
      assert q * peak == peak - capital;
      assert q > 0.0 ==> q * peak > 0.0;
      assert q < 0.0 ==> q * peak < 0.0;
      assert AbsReal(q * 100.0) * peak == AbsReal(q * peak) * 100.0;
    }
  }

  /** What the events other than a fill do. */
  lemma EventsDo(cfg: Config, s: State, text: string, capital: real, now: int)
    ensures !s.halted ==>
      Step(cfg, s, ManualHalt(text, now))
      == s.(halted := true, haltReason := Some(Manual(text)), haltTimestamp := Some(now),
            cooldownUntil := Some(now + cfg.cooldownMinutes * 60 * 1000))
    ensures s.halted ==> Step(cfg, s, ManualHalt(text, now)) == s
    ensures s.halted ==>
      Step(cfg, s, ManualResume) == s.(halted := false, haltReason := None, cooldownUntil := None)
    ensures !s.halted ==> Step(cfg, s, ManualResume) == s
    ensures Step(cfg, s, Enable) == s.(enabled := true, halted := false, cooldownUntil := None)
    ensures Step(cfg, s, Disable) == s.(enabled := false)
    ensures Step(cfg, s, RegisterBot(capital))
         == s.(peakCapital := if capital > s.peakCapital then capital else s.peakCapital)
    ensures var s' := Step(cfg, s, UpdatePeak(capital));
      && s' == s.(peakCapital := s'.peakCapital, currentDrawdown := s'.currentDrawdown)
      && s'.peakCapital == (if capital > s.peakCapital then capital else s.peakCapital)
      && DrawdownTells(s'.currentDrawdown, s'.peakCapital, capital)
    ensures Step(cfg, s, DailyReset(now))
         == s.(dailyPnl := 0.0, consecutiveLosses := 0, dailyStartTime := now, peakCapital := 0.0,
               currentDrawdown := 0.0)
    ensures Step(cfg, s, Reset(now))
         == State(true, false, None, None, 0.0, 0, 0.0, 0.0, None, now)
  {
    var peak := MaxReal(s.peakCapital, capital);
    DrawdownIsTold(peak, capital);
  }

  /** When trading is enabled, and what asking does: it ends a halt whose deadline has passed, and nothing else. */
  lemma AskingDoes(cfg: Config, s: State, now: int)
    ensures var over := s.cooldownUntil.Some? && s.cooldownUntil.value != 0 && s.cooldownUntil.value <= now;
      && (TradingEnabled(s, now) <==> s.enabled && (!s.halted || over))
      && Step(cfg, s, Check(now))
         == if s.enabled && s.halted && over then s.(halted := false, haltReason := None, cooldownUntil := None) else s
  {
  }

  // ----- the switch

  // The events that set the switch, and the last of a run.
  predicate Switches(e: Event) {
    e.Enable? || e.Disable? || e.Reset?
  }

  ghost function LastSwitch(events: seq<Event>): Option<Event> {
    if events == [] then None
    else if Switches(events[|events| - 1]) then Some(events[|events| - 1])
    else LastSwitch(events[..|events| - 1])
  }

  /** After any run the killswitch is disabled exactly when the last of its Enable, Disable and Reset events was a
      Disable. */
  lemma {:induction false} DisabledExactlyByLastSwitch(cfg: Config, start: int, events: seq<Event>)
    ensures !Run(cfg, InitialState(start), events).enabled <==> LastSwitch(events) == Some(Disable)
  {
    if events != [] {
      DisabledExactlyByLastSwitch(cfg, start, events[..|events| - 1]);
    }
  }

  // No event that could enable trading again.
  ghost predicate StaysOff(events: seq<Event>) {
    forall e :: e in events ==> !e.Enable? && !e.Reset?
  }

  /** From a Disable until an Enable or a Reset trading is refused at every moment, and no fill is counted. */
  lemma {:induction false} DisableRefuses(cfg: Config, s: State, events: seq<Event>)
    requires StaysOff(events)
    ensures var off := Step(cfg, s, Disable);
      var s' := Run(cfg, off, events);
      && !s'.enabled && (forall now :: !TradingEnabled(s', now))
      && ((forall e :: e in events ==> !e.DailyReset?) ==>
            s'.dailyPnl == s.dailyPnl && s'.consecutiveLosses == s.consecutiveLosses)
  {
    if events != [] {
      DisableRefuses(cfg, s, events[..|events| - 1]);
    }
  }

  // ----- the peak

  // The capitals that were registered or reported since the last reset.
  ghost function Capitals(events: seq<Event>): seq<real> {
    if events == [] then []
    else
      var front, last := Capitals(events[..|events| - 1]), events[|events| - 1];
      match last
      case RegisterBot(capital) => front + [capital]
      case UpdatePeak(capital) => front + [capital]
      case DailyReset(_) => []
      case Reset(_) => []
      case _ => front
  }

  /** After any run the peak is the highest of zero and those capitals. */
  lemma {:induction false} PeakIsHighestCapital(cfg: Config, start: int, events: seq<Event>)
    ensures var peak := Run(cfg, InitialState(start), events).peakCapital;
      && peak >= 0.0 && (forall c :: c in Capitals(events) ==> c <= peak)
      && (peak == 0.0 || peak in Capitals(events))
  {
    if events != [] {
      PeakIsHighestCapital(cfg, start, events[..|events| - 1]);
    }
  }

  ghost function LastReset(start: int, events: seq<Event>): int {
    if events == [] then start
    else
      var last := events[|events| - 1];
      if last.DailyReset? || last.Reset? then last.now else LastReset(start, events[..|events| - 1])
  }

  lemma {:induction false} DayBeganAtLastReset(cfg: Config, start: int, events: seq<Event>)
    ensures Run(cfg, InitialState(start), events).dailyStartTime == LastReset(start, events)
  {
    if events != [] {
      DayBeganAtLastReset(cfg, start, events[..|events| - 1]);
    }
  }
}
