/**
 The portfolio margin report (src/tree/margin/collateral-rebalance-router.ts): which venues are in deficit
 and which in surplus, and what the recommended transfers do to the venues.
 */
module MarginReport {
  import opened Rounding
  import opened Totals
  import opened Sorting
  import opened VenueMargin
  import opened Rebalance

  datatype PortfolioMarginReport = PortfolioMarginReport(
    venues: seq<VenueMarginHealth>, totalEffectiveCollateralUsd: real, totalMaintenanceMarginUsd: real,
    aggregateUtilization: real, isGlobalDeficit: bool, recommendedTransfers: seq<CollateralTransferAction>)

  predicate InSurplus(v: VenueMarginHealth, config: MarginRouterConfig) {
    v.marginUtilization < config.targetSafeUtilizationPct && v.effectiveCollateralUsd > 0.0
  }

  // The collateral at which a venue's utilization is the target.
  function TargetCollateral(v: VenueMarginHealth, config: MarginRouterConfig): real
    requires config.targetSafeUtilizationPct > 0.0
  {
    v.requiredMaintenanceMarginUsd / config.targetSafeUtilizationPct
  }

  function DeficitOf(slot: nat, v: VenueMarginHealth, config: MarginRouterConfig): Deficit
    requires config.targetSafeUtilizationPct > 0.0
  {
    Deficit(slot, MaxReal(0.0, TargetCollateral(v, config) - v.effectiveCollateralUsd), v)
  }

  function SurplusOf(slot: nat, v: VenueMarginHealth, config: MarginRouterConfig): Surplus
    requires config.targetSafeUtilizationPct > 0.0
  {
    Surplus(slot, MaxReal(0.0, v.effectiveCollateralUsd - TargetCollateral(v, config)), v)
  }

  // The filter and map over the first n venues.
  function Deficits(venues: seq<VenueMarginHealth>, config: MarginRouterConfig, n: nat): seq<Deficit>
    requires config.targetSafeUtilizationPct > 0.0 && n <= |venues|
  {
    if n == 0 then []
    else
      var rest := Deficits(venues, config, n - 1);
      if InDeficit(venues[n - 1], config) then rest + [DeficitOf(n - 1, venues[n - 1], config)] else rest
  }

  function Surpluses(venues: seq<VenueMarginHealth>, config: MarginRouterConfig, n: nat): seq<Surplus>
    requires config.targetSafeUtilizationPct > 0.0 && n <= |venues|
  {
    if n == 0 then []
    else
      var rest := Surpluses(venues, config, n - 1);
      if InSurplus(venues[n - 1], config) then rest + [SurplusOf(n - 1, venues[n - 1], config)] else rest
  }

  // (a, b) => b.neededUsd - a.neededUsd, and the same for what is available.
  predicate MoreNeeded(a: Deficit, b: Deficit) {
    a.neededUsd > b.neededUsd
  }

  predicate MoreAvailable(a: Surplus, b: Surplus) {
    a.availableUsd > b.availableUsd
  }

  // The two lists, largest first, before the loops.
  function StartBoard(venues: seq<VenueMarginHealth>, config: MarginRouterConfig): Board
    requires config.targetSafeUtilizationPct > 0.0
  {
    var deficits := Deficits(venues, config, |venues|);
    var surpluses := Surpluses(venues, config, |venues|);
    Board(Sort(MoreNeeded, deficits), Sort(MoreAvailable, surpluses), [])
  }

  // The exact transfers. Without a positive target no venue is in surplus, see NoSurplusWithoutTarget.
  ghost function Plan(venues: seq<VenueMarginHealth>, config: MarginRouterConfig): seq<Transfer> {
    if config.targetSafeUtilizationPct > 0.0 then
      Sweep(StartBoard(venues, config), config.minTransferAmountUsd, 0, 0).moves
    else []
  }

  // No venue is below a target of zero or less: the surplus list is empty, the loops do nothing, and the
  // amounts needed, which the division by such a target makes infinite or negative, are never used.
  lemma NoSurplusWithoutTarget(venues: seq<VenueMarginHealth>, config: MarginRouterConfig)
    requires config.targetSafeUtilizationPct <= 0.0
    requires forall i :: 0 <= i < |venues| ==> venues[i].marginUtilization >= 0.0
    ensures forall i :: 0 <= i < |venues| ==> !InSurplus(venues[i], config)
  {
  }

  function Collateral(v: VenueMarginHealth): real {
    v.effectiveCollateralUsd
  }

  function Margin(v: VenueMarginHealth): real {
    v.requiredMaintenanceMarginUsd
  }

  predicate NeedsRebalance(venues: seq<VenueMarginHealth>, config: MarginRouterConfig) {
    exists i :: 0 <= i < |venues| && InDeficit(venues[i], config)
  }

  ghost predicate GlobalDeficit(venues: seq<VenueMarginHealth>) {
    Utilization(Total(Collateral, venues), Total(Margin, venues)) >= 1.0
  }

  // ----- the lists

  ghost predicate DeficitEntry(venues: seq<VenueMarginHealth>, config: MarginRouterConfig, d: Deficit)
    requires config.targetSafeUtilizationPct > 0.0
  {
    d.slot < |venues| && InDeficit(venues[d.slot], config) && d == DeficitOf(d.slot, venues[d.slot], config)
  }

  ghost predicate SurplusEntry(venues: seq<VenueMarginHealth>, config: MarginRouterConfig, s: Surplus)
    requires config.targetSafeUtilizationPct > 0.0
  {
    s.slot < |venues| && InSurplus(venues[s.slot], config) && s == SurplusOf(s.slot, venues[s.slot], config)
  }

  lemma {:induction false} DeficitEntries(venues: seq<VenueMarginHealth>, config: MarginRouterConfig, n: nat)
    requires config.targetSafeUtilizationPct > 0.0 && n <= |venues|
    ensures var ds := Deficits(venues, config, n);
      && (forall d :: d in ds ==> DeficitEntry(venues, config, d) && d.slot < n)
      && (forall i :: 0 <= i < n && InDeficit(venues[i], config) ==> DeficitOf(i, venues[i], config) in ds)
      && Pairwise(OtherDeficit, ds)
  {
    if n > 0 {
      DeficitEntries(venues, config, n - 1);
    }
  }

  lemma {:induction false} SurplusEntries(venues: seq<VenueMarginHealth>, config: MarginRouterConfig, n: nat)
    requires config.targetSafeUtilizationPct > 0.0 && n <= |venues|
    ensures var ss := Surpluses(venues, config, n);
      && (forall s :: s in ss ==> SurplusEntry(venues, config, s) && s.slot < n)
      && (forall i :: 0 <= i < n && InSurplus(venues[i], config) ==> SurplusOf(i, venues[i], config) in ss)
      && Pairwise(OtherSurplus, ss)
  {
    if n > 0 {
      SurplusEntries(venues, config, n - 1);
    }
  }

  // The lists hold exactly the venues the filters select, one entry each, largest first.
  lemma StartIsFresh(venues: seq<VenueMarginHealth>, config: MarginRouterConfig)
    requires config.targetSafeUtilizationPct > 0.0
    ensures var b := StartBoard(venues, config);
      && Fresh(b)
      && (forall d :: d in b.deficits ==> DeficitEntry(venues, config, d))
      && (forall s :: s in b.surpluses ==> SurplusEntry(venues, config, s))
      && (forall i :: 0 <= i < |venues| && InDeficit(venues[i], config) ==>
            DeficitOf(i, venues[i], config) in b.deficits)
      && (forall i :: 0 <= i < |venues| && InSurplus(venues[i], config) ==>
            SurplusOf(i, venues[i], config) in b.surpluses)
      && Ordered(MoreNeeded, b.deficits) && Ordered(MoreAvailable, b.surpluses)
  {
    var ds, ss := Deficits(venues, config, |venues|), Surpluses(venues, config, |venues|);
    DeficitEntries(venues, config, |venues|);
    SurplusEntries(venues, config, |venues|);
    SortMembers(MoreNeeded, ds);
    SortMembers(MoreAvailable, ss);
    SortPairwise(MoreNeeded, OtherDeficit, ds);
    SortPairwise(MoreAvailable, OtherSurplus, ss);
    SortOrdered(MoreNeeded, ds);
    SortOrdered(MoreAvailable, ss);
    var b := StartBoard(venues, config);
    forall i | 0 <= i < |b.deficits| ensures b.deficits[i].neededUsd >= 0.0 {
      assert DeficitEntry(venues, config, b.deficits[i]);
    }
    forall j | 0 <= j < |b.surpluses| ensures b.surpluses[j].availableUsd >= 0.0 {
      assert SurplusEntry(venues, config, b.surpluses[j]);
    }
  }

  // A dollar account with one position of margin `margin`.
  function DollarVenue(dollars: real, margin: real): VenueAccountSnapshot {
    VenueAccountSnapshot("venue", [AssetBalance("USD", dollars, 1.0)], [PositionNotional("BTC", margin, 1.0)])
  }

  lemma OneTerm<T>(measure: T -> real, x: T)
    ensures Total(measure, [x]) == measure(x)
  {
    TotalPush(measure, [], x);
    assert [] + [x] == [x];
  }

  // The health of a dollar account with a whole number of cents on both sides.
  lemma DollarHealth(dollars: int, margin: int, config: MarginRouterConfig)
    requires "USD" in config.assetHaircuts && config.assetHaircuts["USD"] == 1.0 && dollars > 0 && margin > 0
    ensures SnapshotHealth(DollarVenue(dollars as real, margin as real), config)
         == HealthOf("venue", dollars as real, dollars as real, margin as real, config)
  {
    var venue := DollarVenue(dollars as real, margin as real);
    OneTerm(NominalValue, venue.balances[0]);
    OneTerm(Discounted(config.assetHaircuts), venue.balances[0]);
    OneTerm(PositionMargin, venue.positions[0]);
    WholeCents(dollars);
    WholeCents(margin);
  }

  lemma WholeCents(n: int)
    ensures RoundCents(n as real) == n as real
  {
    assert (n as real * 100.0 + 0.5).Floor == n * 100;
  }

  // A venue at 74.996 per cent is listed for rebalancing at a threshold of 75 per cent, while its status
  // does not say so.
  lemma ListedButOnlyWarned(config: MarginRouterConfig)
    requires config.rebalanceThresholdPct == 0.75 <= config.criticalThresholdPct
    requires "USD" in config.assetHaircuts && config.assetHaircuts["USD"] == 1.0
    ensures var health := SnapshotHealth(DollarVenue(1000000.0, 749960.0), config);
      InDeficit(health, config) && health.status == Warning
  {
    DollarHealth(1000000, 749960, config);
    assert Utilization(1000000.0, 749960.0) == 0.74996;
  }

  // Conversely a venue at 75.003 per cent with a threshold of 75.002 per cent, and one at 86 per cent with
  // thresholds of 90 and 85 per cent, are flagged by their status and not listed.
  lemma FlaggedButNotListed(config: MarginRouterConfig)
    requires "USD" in config.assetHaircuts && config.assetHaircuts["USD"] == 1.0
    ensures config.rebalanceThresholdPct == 0.75002 && config.criticalThresholdPct > 0.75003 ==>
      var health := SnapshotHealth(DollarVenue(1000000.0, 750030.0), config);
      health.status == RebalanceTriggered && !InDeficit(health, config)
    ensures config.rebalanceThresholdPct == 0.9 && config.criticalThresholdPct == 0.85 ==>
      var health := SnapshotHealth(DollarVenue(100.0, 86.0), config);
      health.status == Critical && !InDeficit(health, config)
  {
    DollarHealth(1000000, 750030, config);
    DollarHealth(100, 86, config);
    assert Utilization(1000000.0, 750030.0) == 0.75003 && Utilization(100.0, 86.0) == 0.86;
  }

  // A transfer from a venue below the target to one that has reached the trigger.
  ghost predicate Joins(venues: seq<VenueMarginHealth>, config: MarginRouterConfig, t: Transfer) {
    && t.from < |venues| && t.to < |venues| && t.sender == venues[t.from] && t.receiver == venues[t.to]
    && venues[t.from].marginUtilization < config.targetSafeUtilizationPct
    && venues[t.from].effectiveCollateralUsd > 0.0
    && venues[t.to].marginUtilization >= config.rebalanceThresholdPct
  }

  lemma PlanJoins(venues: seq<VenueMarginHealth>, config: MarginRouterConfig)
    ensures forall k :: 0 <= k < |Plan(venues, config)| ==> Joins(venues, config, Plan(venues, config)[k])
  {
    if config.targetSafeUtilizationPct <= 0.0 {
      return;
    }
    var b, moves := StartBoard(venues, config), Plan(venues, config);
    StartIsFresh(venues, config);
    SweepInvariant(b, config.minTransferAmountUsd);
    forall k | 0 <= k < |moves| ensures Joins(venues, config, moves[k]) {
      assert Listed(b, moves[k]);
      var i :| 0 <= i < |b.deficits| && b.deficits[i].slot == moves[k].to && b.deficits[i].health == moves[k].receiver;
      var j :|
        0 <= j < |b.surpluses| && b.surpluses[j].slot == moves[k].from && b.surpluses[j].health == moves[k].sender;
      assert b.deficits[i] in b.deficits && b.surpluses[j] in b.surpluses;
      assert DeficitEntry(venues, config, b.deficits[i]) && SurplusEntry(venues, config, b.surpluses[j]);
    }
  }

  ghost function TransferUsd(a: CollateralTransferAction): real {
    a.transferAmountUsd
  }

  /** The amounts reported in whole cents differ in total from the exact ones by at most half a cent a transfer. */
  lemma {:induction false} ReportedTotalIsClose(moves: seq<Transfer>, actions: seq<CollateralTransferAction>)
    requires Reported(moves, actions)
    ensures Near(Total(TransferUsd, actions), Total(Amount, moves), 0.005 * |moves| as real)
  {
    if moves != [] {
      var n := |moves| - 1;
      assert forall k :: 0 <= k < n ==> moves[..n][k] == moves[k] && actions[..n][k] == actions[k];
      ReportedTotalIsClose(moves[..n], actions[..n]);
      assert Tells(actions[n], moves[n]);
      assert 0.005 * |moves| as real == 0.005 * n as real + 0.005;
    }
  }

  lemma GlobalDeficitMeans(venues: seq<VenueMarginHealth>)
    ensures var c, m := Total(Collateral, venues), Total(Margin, venues);
      GlobalDeficit(venues) <==> if c > 0.0 then m >= c else m > 0.0
  {
    ReachesIsUtilization(Total(Collateral, venues), Total(Margin, venues), 1.0);
  }

  // ----- the code

  method Evaluate(snapshots: seq<VenueAccountSnapshot>, config: MarginRouterConfig)
    returns (venues: seq<VenueMarginHealth>)
    ensures |venues| == |snapshots|
    ensures forall i :: 0 <= i < |snapshots| ==> venues[i] == SnapshotHealth(snapshots[i], config)
    ensures forall i :: 0 <= i < |venues| ==> Collateral(venues[i]) >= 0.0 && Margin(venues[i]) >= 0.0
    ensures forall i :: 0 <= i < |venues| ==> venues[i].marginUtilization >= 0.0
    ensures forall i :: 0 <= i < |snapshots| ==>
      venues[i].venueId == snapshots[i].venueId && HealthReads(venues[i], config)
  {
    venues := [];
    for i := 0 to |snapshots|
      invariant |venues| == i
      invariant forall k :: 0 <= k < i ==> venues[k] == SnapshotHealth(snapshots[k], config)
      invariant forall k :: 0 <= k < i ==> Collateral(venues[k]) >= 0.0 && Margin(venues[k]) >= 0.0
      invariant forall k :: 0 <= k < i ==> venues[k].marginUtilization >= 0.0
      invariant forall k :: 0 <= k < i ==>
        venues[k].venueId == snapshots[k].venueId && HealthReads(venues[k], config)
    {
      var health := EvaluateVenueMarginHealth(snapshots[i], config);
      venues := venues + [health];
    }
  }

  method SumVenues(venues: seq<VenueMarginHealth>) returns (totalCollateral: real, totalMargin: real)
    ensures totalCollateral == Total(Collateral, venues) && totalMargin == Total(Margin, venues)
  {
    totalCollateral, totalMargin := 0.0, 0.0;
    for i := 0 to |venues|
      invariant totalCollateral == Total(Collateral, venues[..i]) && totalMargin == Total(Margin, venues[..i])
    {
      assert venues[..i + 1] == venues[..i] + [venues[i]];
      TotalPush(Collateral, venues[..i], venues[i]);
      TotalPush(Margin, venues[..i], venues[i]);
      totalCollateral := totalCollateral + venues[i].effectiveCollateralUsd;
      totalMargin := totalMargin + venues[i].requiredMaintenanceMarginUsd;
    }
    assert venues[..|venues|] == venues;
  }

  // The branch that builds the two lists and runs the loops over them.
  method Recommend(venues: seq<VenueMarginHealth>, config: MarginRouterConfig)
    returns (transfers: seq<CollateralTransferAction>, ghost moves: seq<Transfer>)
    requires forall i :: 0 <= i < |venues| ==> Collateral(venues[i]) >= 0.0
    ensures moves == Plan(venues, config)
    ensures Reported(moves, transfers)
  {
    if config.targetSafeUtilizationPct <= 0.0 {
      return [], [];
    }
    var start := StartBoard(venues, config);
    StartIsFresh(venues, config);
    var deficits := new Deficit[|start.deficits|](i requires 0 <= i < |start.deficits| => start.deficits[i]);
    var surpluses := new Surplus[|start.surpluses|](i requires 0 <= i < |start.surpluses| => start.surpluses[i]);
    assert deficits[..] == start.deficits && surpluses[..] == start.surpluses;
    forall i | 0 <= i < deficits.Length ensures deficits[i].health.effectiveCollateralUsd >= 0.0 {
      assert deficits[i] in start.deficits;
    }
    transfers, moves := SettleAll(deficits, surpluses, config.minTransferAmountUsd);
  }

  /** The report. Transfers are recommended only when some venue is in deficit and the portfolio as a whole is not. */
  method CalculatePortfolioMarginReport(snapshots: seq<VenueAccountSnapshot>, config: MarginRouterConfig)
    returns (report: PortfolioMarginReport, ghost moves: seq<Transfer>)
    ensures |report.venues| == |snapshots|
    ensures forall i :: 0 <= i < |snapshots| ==> report.venues[i] == SnapshotHealth(snapshots[i], config)
    ensures report.totalEffectiveCollateralUsd == RoundCents(Total(Collateral, report.venues))
    ensures report.totalMaintenanceMarginUsd == RoundCents(Total(Margin, report.venues))
    ensures report.aggregateUtilization
         == RoundBps(Utilization(Total(Collateral, report.venues), Total(Margin, report.venues)))
    ensures forall i :: 0 <= i < |snapshots| ==>
      report.venues[i].venueId == snapshots[i].venueId && HealthReads(report.venues[i], config)
    ensures var c, m := Total(Collateral, report.venues), Total(Margin, report.venues);
      report.isGlobalDeficit <==> if c > 0.0 then m >= c else m > 0.0
    ensures var needed := exists i ::
        0 <= i < |report.venues| && report.venues[i].marginUtilization >= config.rebalanceThresholdPct;
      moves == if needed && !report.isGlobalDeficit then Plan(report.venues, config) else []
    ensures config.targetSafeUtilizationPct <= 0.0 ==>
      forall i :: 0 <= i < |report.venues| ==> !InSurplus(report.venues[i], config)
    ensures Reported(moves, report.recommendedTransfers)
    ensures forall k :: 0 <= k < |moves| ==> Joins(report.venues, config, moves[k])
    ensures Near(Total(TransferUsd, report.recommendedTransfers), Total(Amount, moves), 0.005 * |moves| as real)
  {
    var venues := Evaluate(snapshots, config);
    var totalCollateral, totalMargin := SumVenues(venues);
    var aggregateUtilization :=
      if totalCollateral > 0.0 then totalMargin / totalCollateral else if totalMargin > 0.0 then 1.0 else 0.0;
    var isGlobalDeficit := aggregateUtilization >= 1.0;
    GlobalDeficitMeans(venues);
    PlanJoins(venues, config);
    var transfers: seq<CollateralTransferAction> := [];
    moves := [];
    if NeedsRebalance(venues, config) && !isGlobalDeficit {
      transfers, moves := Recommend(venues, config);
    }
    if config.targetSafeUtilizationPct <= 0.0 {
      NoSurplusWithoutTarget(venues, config);
    }
    ReportedTotalIsClose(moves, transfers);
    report := PortfolioMarginReport(venues, RoundCents(totalCollateral), RoundCents(totalMargin),
                                    RoundBps(aggregateUtilization), isGlobalDeficit, transfers);
  }
}
