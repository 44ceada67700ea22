/**
 Collateral and margin of one venue (src/tree/margin/synthetic-margin-calculator.ts): haircut-discounted
 collateral, maintenance margin, utilization and status.
 */
module VenueMargin {
  import opened Rounding
  import opened Totals
  import opened Arithmetic

  datatype AssetBalance = AssetBalance(asset: string, amount: real, priceUsd: real)

  datatype PositionNotional = PositionNotional(symbol: string, notionalUsd: real, maintenanceMarginRate: real)

  datatype VenueAccountSnapshot =
    VenueAccountSnapshot(venueId: string, balances: seq<AssetBalance>, positions: seq<PositionNotional>)

  datatype MarginRouterConfig = MarginRouterConfig(
    rebalanceThresholdPct: real, criticalThresholdPct: real, targetSafeUtilizationPct: real,
    minTransferAmountUsd: real, assetHaircuts: map<string, real>)

  datatype MarginHealthStatus = Safe | Warning | RebalanceTriggered | Critical

  datatype VenueMarginHealth = VenueMarginHealth(
    venueId: string, nominalCollateralUsd: real, effectiveCollateralUsd: real, requiredMaintenanceMarginUsd: real,
    marginUtilization: real, liquidationDistanceUsd: real, status: MarginHealthStatus)

  function ValueUsd(b: AssetBalance): real {
    b.amount * b.priceUsd
  }

  // An unknown asset counts half; a factor outside 0..1 is clamped.
  function HaircutFactor(haircuts: map<string, real>, asset: string): real {
    MaxReal(0.0, MinReal(1.0, if asset in haircuts then haircuts[asset] else 0.5))
  }

  // A balance without positive value counts nothing.
  function NominalValue(b: AssetBalance): real {
    if ValueUsd(b) <= 0.0 then 0.0 else ValueUsd(b)
  }

  function DiscountedValue(haircuts: map<string, real>, b: AssetBalance): real {
    NominalValue(b) * HaircutFactor(haircuts, b.asset)
  }

  function Discounted(haircuts: map<string, real>): AssetBalance -> real {
    (b: AssetBalance) => DiscountedValue(haircuts, b)
  }

  function PositionMargin(p: PositionNotional): real {
    if p.notionalUsd <= 0.0 || p.maintenanceMarginRate <= 0.0 then 0.0 else p.notionalUsd * p.maintenanceMarginRate
  }

  function Utilization(collateral: real, margin: real): real {
    if collateral > 0.0 then margin / collateral else if margin > 0.0 then 1.0 else 0.0
  }

  function StatusOf(utilization: real, config: MarginRouterConfig): MarginHealthStatus {
    if utilization >= config.criticalThresholdPct then Critical
    else if utilization >= config.rebalanceThresholdPct then RebalanceTriggered
    else if utilization >= 0.6 then Warning
    else Safe
  }

  function HealthOf(venueId: string, nominal: real, collateral: real, margin: real, config: MarginRouterConfig)
    : VenueMarginHealth
  {
    var utilization := Utilization(collateral, margin);
    VenueMarginHealth(venueId, nominal, collateral, margin, RoundBps(utilization),
                      RoundCents(MaxReal(0.0, collateral - margin)), StatusOf(utilization, config))
  }

  ghost function SnapshotHealth(s: VenueAccountSnapshot, config: MarginRouterConfig): VenueMarginHealth {
    HealthOf(s.venueId, RoundCents(Total(NominalValue, s.balances)),
             RoundCents(Total(Discounted(config.assetHaircuts), s.balances)),
             RoundCents(Total(PositionMargin, s.positions)), config)
  }

  // What a balance counts: nothing without a positive value, else its value, and of that the haircut's share, which
  // is a half for an unknown asset and never less than nothing or more than the whole.
  lemma BalanceCounts(haircuts: map<string, real>, b: AssetBalance)
    ensures var value := b.amount * b.priceUsd;
      var counted := Discounted(haircuts)(b);
      && (value <= 0.0 ==> NominalValue(b) == 0.0 == counted)
      && (value > 0.0 ==>
            && NominalValue(b) == value
            && (b.asset !in haircuts ==> counted == value * 0.5)
            && (b.asset in haircuts && 0.0 <= haircuts[b.asset] <= 1.0 ==> counted == value * haircuts[b.asset])
            && (b.asset in haircuts && haircuts[b.asset] < 0.0 ==> counted == 0.0)
            && (b.asset in haircuts && haircuts[b.asset] > 1.0 ==> counted == value))
  {
  }

  lemma PositionCounts(p: PositionNotional)
    ensures p.notionalUsd > 0.0 && p.maintenanceMarginRate > 0.0 ==>
      PositionMargin(p) == p.notionalUsd * p.maintenanceMarginRate
    ensures p.notionalUsd <= 0.0 || p.maintenanceMarginRate <= 0.0 ==> PositionMargin(p) == 0.0
  {
  }

  // The margin is at least the share t of the collateral; without collateral any margin counts as all of it.
  ghost predicate Reaches(collateral: real, margin: real, t: real) {
    if collateral > 0.0 then margin >= t * collateral else t <= (if margin > 0.0 then 1.0 else 0.0)
  }

  lemma ReachesIsUtilization(collateral: real, margin: real, t: real)
    ensures Utilization(collateral, margin) >= t <==> Reaches(collateral, margin, t)
  {
    if collateral > 0.0 {
      ShareOf(margin, collateral, t);
    }
  }

  lemma ShareOf(n: real, d: real, t: real)
    requires d > 0.0
    ensures n / d >= t <==> n >= t * d
  {
    var q := n / d;
    assert q * d == n;
    assert (q - t) * d == n - t * d;
    assert q > t ==> (q - t) * d > 0.0;
    assert q < t ==> (q - t) * d < 0.0;
  }

  // The figures of a venue: its status by the thresholds, the utilization to four decimals, and the distance to
  // liquidation in cents.
  ghost predicate HealthReads(h: VenueMarginHealth, config: MarginRouterConfig) {
    var c, m := h.effectiveCollateralUsd, h.requiredMaintenanceMarginUsd;
    && (h.status == Critical <==> Reaches(c, m, config.criticalThresholdPct))
    && (h.status == RebalanceTriggered <==>
          !Reaches(c, m, config.criticalThresholdPct) && Reaches(c, m, config.rebalanceThresholdPct))
    && (h.status == Warning <==>
          && !Reaches(c, m, config.criticalThresholdPct) && !Reaches(c, m, config.rebalanceThresholdPct)
          && Reaches(c, m, 0.6))
    && (c > 0.0 ==> Near(h.marginUtilization, m / c, 0.00005))
    && (c <= 0.0 ==> h.marginUtilization == if m > 0.0 then 1.0 else 0.0)
    && (c > m ==> Near(h.liquidationDistanceUsd, c - m, 0.005))
    && (c <= m ==> h.liquidationDistanceUsd == 0.0)
  }

  lemma HealthIsRead(venueId: string, nominal: real, collateral: real, margin: real, config: MarginRouterConfig)
    ensures HealthReads(HealthOf(venueId, nominal, collateral, margin, config), config)
  {
    ReachesIsUtilization(collateral, margin, config.criticalThresholdPct);
    ReachesIsUtilization(collateral, margin, config.rebalanceThresholdPct);
    ReachesIsUtilization(collateral, margin, 0.6);
    BpsError(Utilization(collateral, margin));
    CentsError(MaxReal(0.0, collateral - margin));
    assert RoundBps(1.0) == 1.0 && RoundBps(0.0) == 0.0 && RoundCents(0.0) == 0.0;
  }

  lemma ScaleDown(v: real, factor: real)
    requires v >= 0.0 && 0.0 <= factor <= 1.0
    ensures 0.0 <= v * factor <= v
  {
    ProductNonNegative(v, factor);
    ProductNonNegative(v, 1.0 - factor);
  }

  lemma NominalNonNegative(b: AssetBalance)
    ensures NominalValue(b) >= 0.0
  {
  }

  lemma DiscountTakesAway(haircuts: map<string, real>, b: AssetBalance)
    ensures 0.0 <= Discounted(haircuts)(b) <= NominalValue(b)
  {
    var v, factor := NominalValue(b), HaircutFactor(haircuts, b.asset);
    NominalNonNegative(b);
    ScaleDown(v, factor);
    assert Discounted(haircuts)(b) == v * factor;
  }

  // Totals keep their order when they are rounded.
  lemma RoundedTotalsOrdered<T>(f: T -> real, g: T -> real, s: seq<T>)
    requires forall x :: x in s ==> 0.0 <= f(x) <= g(x)
    ensures 0.0 <= RoundCents(Total(f, s)) <= RoundCents(Total(g, s))
  {
    TotalNonNegative(f, s);
    TotalAtMost(f, g, s);
    CentsMonotone(0.0, Total(f, s));
    CentsMonotone(Total(f, s), Total(g, s));
    assert RoundCents(0.0) == 0.0;
  }

  // A haircut only takes away: discounted collateral lies between zero and nominal collateral.
  lemma DiscountIsBounded(haircuts: map<string, real>, balances: seq<AssetBalance>)
    ensures 0.0 <= RoundCents(Total(Discounted(haircuts), balances)) <= RoundCents(Total(NominalValue, balances))
  {
    forall b | b in balances ensures 0.0 <= Discounted(haircuts)(b) <= NominalValue(b) {
      DiscountTakesAway(haircuts, b);
    }
    RoundedTotalsOrdered(Discounted(haircuts), NominalValue, balances);
  }

  lemma MarginNonNegative(positions: seq<PositionNotional>)
    ensures RoundCents(Total(PositionMargin, positions)) >= 0.0
  {
    RoundedTotalsOrdered(PositionMargin, PositionMargin, positions);
  }

  // The value of one balance and its discounted value; a balance without positive value is skipped.
  method ValueBalance(b: AssetBalance, haircuts: map<string, real>) returns (valueUsd: real, discountedUsd: real)
    ensures valueUsd == NominalValue(b) && discountedUsd == DiscountedValue(haircuts, b)
  {
    valueUsd := b.amount * b.priceUsd;
    if valueUsd <= 0.0 {
      return 0.0, 0.0;
    }
    var haircutFactor := MaxReal(0.0, MinReal(1.0, if b.asset in haircuts then haircuts[b.asset] else 0.5));
    discountedUsd := valueUsd * haircutFactor;
  }

  // One more term of a running sum.
  lemma PushTo<T>(measure: T -> real, s: seq<T>, x: T, sum: real, term: real)
    requires sum == Total(measure, s) && term == measure(x)
    ensures sum + term == Total(measure, s + [x])
  {
    TotalPush(measure, s, x);
  }

  // The accumulating loop.
  method SumBalances(balances: seq<AssetBalance>, haircuts: map<string, real>) returns (nominal: real, effective: real)
    ensures nominal == Total(NominalValue, balances) && effective == Total(Discounted(haircuts), balances)
  {
    nominal, effective := 0.0, 0.0;
    for i := 0 to |balances|
      invariant nominal == Total(NominalValue, balances[..i])
      invariant effective == Total(Discounted(haircuts), balances[..i])
    {
      assert balances[..i + 1] == balances[..i] + [balances[i]];
      var valueUsd, discountedUsd := ValueBalance(balances[i], haircuts);
      PushTo(NominalValue, balances[..i], balances[i], nominal, valueUsd);
      PushTo(Discounted(haircuts), balances[..i], balances[i], effective, discountedUsd);
      nominal, effective := nominal + valueUsd, effective + discountedUsd;
    }
    assert balances[..|balances|] == balances;
  }

  method CalculateEffectiveCollateral(balances: seq<AssetBalance>, haircuts: map<string, real>)
    returns (nominalUsd: real, effectiveUsd: real)
    ensures nominalUsd == RoundCents(Total(NominalValue, balances))
    ensures effectiveUsd == RoundCents(Total(Discounted(haircuts), balances))
    ensures 0.0 <= effectiveUsd <= nominalUsd
  {
    var nominal, effective := SumBalances(balances, haircuts);
    DiscountIsBounded(haircuts, balances);
    return RoundCents(nominal), RoundCents(effective);
  }

  method CalculateRequiredMaintenanceMargin(positions: seq<PositionNotional>) returns (marginUsd: real)
    ensures marginUsd == RoundCents(Total(PositionMargin, positions)) >= 0.0
  {
    var totalMargin := 0.0;
    for i := 0 to |positions|
      invariant totalMargin == Total(PositionMargin, positions[..i])
    {
      var p := positions[i];
      assert positions[..i + 1] == positions[..i] + [p];
      TotalPush(PositionMargin, positions[..i], p);
      if p.notionalUsd <= 0.0 || p.maintenanceMarginRate <= 0.0 {
        continue;
      }
      totalMargin := totalMargin + p.notionalUsd * p.maintenanceMarginRate;
    }
    assert positions[..|positions|] == positions;
    MarginNonNegative(positions);
    return RoundCents(totalMargin);
  }

  lemma QuotientNonNegative(n: real, d: real)
    requires n >= 0.0 && d > 0.0
    ensures n / d >= 0.0
  {
    var q := n / d;
    assert q * d == n;
    assert q < 0.0 ==> q * d < 0.0;
  }

  lemma UtilizationNonNegative(collateral: real, margin: real)
    requires margin >= 0.0
    ensures RoundBps(Utilization(collateral, margin)) >= 0.0
  {
    if collateral > 0.0 {
      QuotientNonNegative(margin, collateral);
    }
    FloorMonotone(0.0, Utilization(collateral, margin) * 10000.0 + 0.5);
  }

  // The branches over collateral and margin.
  method Utilize(effectiveUsd: real, maintenanceUsd: real) returns (utilization: real)
    ensures utilization == Utilization(effectiveUsd, maintenanceUsd)
  {
    utilization := 0.0;
    if effectiveUsd > 0.0 {
      utilization := maintenanceUsd / effectiveUsd;
    } else if maintenanceUsd > 0.0 {
      utilization := 1.0;
    }
  }

  method EvaluateVenueMarginHealth(snapshot: VenueAccountSnapshot, config: MarginRouterConfig)
    returns (health: VenueMarginHealth)
    ensures health == SnapshotHealth(snapshot, config)
    ensures 0.0 <= health.effectiveCollateralUsd <= health.nominalCollateralUsd
    ensures health.requiredMaintenanceMarginUsd >= 0.0 && health.marginUtilization >= 0.0
    ensures health.venueId == snapshot.venueId && HealthReads(health, config)
  {
    var nominalUsd, effectiveUsd := CalculateEffectiveCollateral(snapshot.balances, config.assetHaircuts);
    var maintenanceUsd := CalculateRequiredMaintenanceMargin(snapshot.positions);
    var utilization := Utilize(effectiveUsd, maintenanceUsd);
    UtilizationNonNegative(effectiveUsd, maintenanceUsd);
    HealthIsRead(snapshot.venueId, nominalUsd, effectiveUsd, maintenanceUsd, config);
    var liquidationDistanceUsd := MaxReal(0.0, effectiveUsd - maintenanceUsd);
    var status := Safe;
    if utilization >= config.criticalThresholdPct {
      status := Critical;
    } else if utilization >= config.rebalanceThresholdPct {
      status := RebalanceTriggered;
    } else if utilization >= 0.6 {
      status := Warning;
    }
    return VenueMarginHealth(snapshot.venueId, nominalUsd, effectiveUsd, maintenanceUsd, RoundBps(utilization),
                             RoundCents(liquidationDistanceUsd), status);
  }

  // What the status says, and what the rebalancer's filter does.
  predicate Flagged(h: VenueMarginHealth) {
    h.status == RebalanceTriggered || h.status == Critical
  }

  predicate InDeficit(h: VenueMarginHealth, config: MarginRouterConfig) {
    h.marginUtilization >= config.rebalanceThresholdPct
  }

  /** The status is read off the exact utilization, the filter off the one rounded to four decimals. A venue is flagged
      from the lower of the two thresholds on, and listed from half a unit below the first four-decimal number that
      reaches the rebalance threshold; between the two, and only there, one of them holds without the other. */
  lemma StatusAndTriggerDisagree(venueId: string, nominal: real, collateral: real, margin: real,
                                 config: MarginRouterConfig)
    ensures var h := HealthOf(venueId, nominal, collateral, margin, config);
      var u := Utilization(collateral, margin);
      var listedFrom := BpsThreshold(config.rebalanceThresholdPct);
      var flaggedFrom := MinReal(config.criticalThresholdPct, config.rebalanceThresholdPct);
      && (InDeficit(h, config) && !Flagged(h) <==> listedFrom <= u < flaggedFrom)
      && (Flagged(h) && !InDeficit(h, config) <==> flaggedFrom <= u < listedFrom)
  {
    BpsReaches(Utilization(collateral, margin), config.rebalanceThresholdPct);
  }
}
