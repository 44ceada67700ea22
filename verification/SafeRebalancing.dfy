/** What applying the recommended transfers, at their exact amounts, does to the venues. */
module SafeRebalancing {
  import opened Rounding
  import opened Totals
  import opened VenueMargin
  import opened Rebalance
  import opened MarginReport

  ghost function Shift(collateral: seq<real>, v: nat, x: real): (r: seq<real>)
    requires v < |collateral|
    ensures |r| == |collateral|
  {
    collateral[v := collateral[v] + x]
  }

  ghost function Carry(collateral: seq<real>, from: nat, to: nat, x: real): (r: seq<real>)
    requires from < |collateral| && to < |collateral|
    ensures |r| == |collateral|
  {
    Shift(Shift(collateral, from, -x), to, x)
  }

  // The collateral of every venue after the transfers, carried out one by one.
  ghost function Apply(collateral: seq<real>, moves: seq<Transfer>): (r: seq<real>)
    requires Inside(|collateral|, moves)
    ensures |r| == |collateral|
  {
    if moves == [] then collateral
    else
      var last := moves[|moves| - 1];
      Carry(Apply(collateral, moves[..|moves| - 1]), last.from, last.to, last.amount)
  }

  ghost predicate Inside(n: nat, moves: seq<Transfer>) {
    forall t :: t in moves ==> t.from < n && t.to < n
  }

  lemma ShiftTotal(collateral: seq<real>, v: nat, x: real)
    requires v < |collateral|
    ensures Total(Itself, Shift(collateral, v, x)) == Total(Itself, collateral) + x
  {
    var shifted := collateral[v] + x;
    TotalUpdate(Itself, collateral, v, shifted);
    assert Shift(collateral, v, x) == collateral[v := shifted];
  }

  // A measure of the venues' collateral that counts every dollar once, wherever it is.
  ghost predicate Additive(measure: seq<real> -> real) {
    forall c: seq<real>, v: nat, x: real | v < |c| :: measure(Shift(c, v, x)) == measure(c) + x
  }

  lemma {:induction false} ApplyKeeps(measure: seq<real> -> real, collateral: seq<real>, moves: seq<Transfer>)
    requires Inside(|collateral|, moves) && Additive(measure)
    ensures measure(Apply(collateral, moves)) == measure(collateral)
  {
    if moves != [] {
      ApplyKeeps(measure, collateral, moves[..|moves| - 1]);
    }
  }

  // Transfers conserve collateral.
  lemma ApplyConserves(collateral: seq<real>, moves: seq<Transfer>)
    requires Inside(|collateral|, moves)
    ensures Total(Itself, Apply(collateral, moves)) == Total(Itself, collateral)
  {
    var measure := (c: seq<real>) => Total(Itself, c);
    forall c: seq<real>, v: nat, x: real | v < |c| ensures measure(Shift(c, v, x)) == measure(c) + x {
      ShiftTotal(c, v, x);
    }
    ApplyKeeps(measure, collateral, moves);
  }

  // Each venue ends with what it had, less what it sent, plus what it received.
  lemma {:induction false} ApplyAt(collateral: seq<real>, moves: seq<Transfer>, v: nat)
    requires Inside(|collateral|, moves) && v < |collateral|
    ensures Apply(collateral, moves)[v] == collateral[v] - Total(FromSlot(v), moves) + Total(ToSlot(v), moves)
  {
    if moves != [] {
      ApplyAt(collateral, moves[..|moves| - 1], v);
    }
  }

  ghost function Collaterals(venues: seq<VenueMarginHealth>): (r: seq<real>)
    ensures |r| == |venues|
  {
    seq(|venues|, i requires 0 <= i < |venues| => Collateral(venues[i]))
  }

  lemma PlanStaysInside(venues: seq<VenueMarginHealth>, config: MarginRouterConfig)
    ensures Inside(|venues|, Plan(venues, config))
  {
    if config.targetSafeUtilizationPct <= 0.0 {
      return;
    }
    var b := StartBoard(venues, config);
    StartIsFresh(venues, config);
    SweepInvariant(b, config.minTransferAmountUsd);
    forall t | t in Plan(venues, config) ensures t.from < |venues| && t.to < |venues| {
      assert Listed(b, t);
      var i :| 0 <= i < |b.deficits| && b.deficits[i].slot == t.to;
      var j :| 0 <= j < |b.surpluses| && b.surpluses[j].slot == t.from;
      assert b.deficits[i] in b.deficits && b.surpluses[j] in b.surpluses;
    }
  }

  // What a venue received is zero, or within the need of its deficit entry.
  lemma ReceivedWithinNeed(venues: seq<VenueMarginHealth>, config: MarginRouterConfig, v: nat)
    requires config.targetSafeUtilizationPct > 0.0 && v < |venues|
    ensures var received := Total(ToSlot(v), Plan(venues, config));
      received == 0.0
      || (InDeficit(venues[v], config)
          && 0.0 < received <= TargetCollateral(venues[v], config) - Collateral(venues[v]))
  {
    var b0 := StartBoard(venues, config);
    var b := Sweep(b0, config.minTransferAmountUsd, 0, 0);
    StartIsFresh(venues, config);
    SweepInvariant(b0, config.minTransferAmountUsd);
    TotalNonNegative(ToSlot(v), b.moves);
    if i :| 0 <= i < |b0.deficits| && b0.deficits[i].slot == v {
      assert b0.deficits[i] in b0.deficits && b.deficits[i].slot == v;
    } else {
      forall t | t in b.moves ensures ToSlot(v)(t) == 0.0 {
        assert Listed(b0, t);
      }
      ZeroTotal(ToSlot(v), b.moves);
    }
  }

  lemma SentWithinSurplus(venues: seq<VenueMarginHealth>, config: MarginRouterConfig, v: nat)
    requires config.targetSafeUtilizationPct > 0.0 && v < |venues|
    ensures var sent := Total(FromSlot(v), Plan(venues, config));
      sent == 0.0
      || (InSurplus(venues[v], config)
          && 0.0 < sent <= Collateral(venues[v]) - TargetCollateral(venues[v], config))
  {
    var b0 := StartBoard(venues, config);
    var b := Sweep(b0, config.minTransferAmountUsd, 0, 0);
    StartIsFresh(venues, config);
    SweepInvariant(b0, config.minTransferAmountUsd);
    TotalNonNegative(FromSlot(v), b.moves);
    if j :| 0 <= j < |b0.surpluses| && b0.surpluses[j].slot == v {
      assert b0.surpluses[j] in b0.surpluses && b.surpluses[j].slot == v;
    } else {
      forall t | t in b.moves ensures FromSlot(v)(t) == 0.0 {
        assert Listed(b0, t);
      }
      ZeroTotal(FromSlot(v), b.moves);
    }
  }

  // Holding the target collateral means being at the target utilization, and so on either side.
  lemma TargetMeansUtilization(margin: real, target: real, c: real)
    requires target > 0.0
    ensures c >= margin / target <==> margin <= target * c
    ensures c <= margin / target <==> target * c <= margin
  {
    var w := margin / target;
    assert w * target == margin;
    assert (c - w) * target == target * c - margin;
    assert c > w ==> (c - w) * target > 0.0;
    assert c < w ==> (c - w) * target < 0.0;
  }

  // Adding the amount, in the direction given, brings the venue to the target; or there is nothing to add.
  ghost predicate TargetGap(v: VenueMarginHealth, target: real, amount: real, direction: real) {
    var c, m := v.effectiveCollateralUsd, v.requiredMaintenanceMarginUsd;
    && amount >= 0.0
    && (amount > 0.0 ==> target * (c + direction * amount) == m)
    && (amount == 0.0 ==> direction * (m - target * c) <= 0.0)
  }

  lemma GapToTarget(v: VenueMarginHealth, config: MarginRouterConfig, amount: real, direction: real)
    requires config.targetSafeUtilizationPct > 0.0 && (direction == 1.0 || direction == -1.0)
    requires amount == MaxReal(0.0, direction * (TargetCollateral(v, config) - v.effectiveCollateralUsd))
    ensures TargetGap(v, config.targetSafeUtilizationPct, amount, direction)
  {
    TargetMeansUtilization(v.requiredMaintenanceMarginUsd, config.targetSafeUtilizationPct, v.effectiveCollateralUsd);
    TargetMeansUtilization(v.requiredMaintenanceMarginUsd, config.targetSafeUtilizationPct,
                           TargetCollateral(v, config));
  }

  ghost predicate BelowTarget(v: VenueMarginHealth, config: MarginRouterConfig) {
    v.marginUtilization < config.targetSafeUtilizationPct && v.effectiveCollateralUsd > 0.0
  }

  // The two lists, read off the venues: who is on them, and how far each is from the target.
  lemma ListsAreExact(venues: seq<VenueMarginHealth>, config: MarginRouterConfig)
    requires config.targetSafeUtilizationPct > 0.0
    ensures var b := StartBoard(venues, config);
      && (forall i :: 0 <= i < |venues| && venues[i].marginUtilization >= config.rebalanceThresholdPct ==>
            exists d :: d in b.deficits && d.slot == i)
      && (forall i :: 0 <= i < |venues| && BelowTarget(venues[i], config) ==>
            exists s :: s in b.surpluses && s.slot == i)
      && (forall d :: d in b.deficits ==>
            && d.slot < |venues| && venues[d.slot].marginUtilization >= config.rebalanceThresholdPct
            && TargetGap(venues[d.slot], config.targetSafeUtilizationPct, d.neededUsd, 1.0))
      && (forall s :: s in b.surpluses ==>
            && s.slot < |venues| && BelowTarget(venues[s.slot], config)
            && TargetGap(venues[s.slot], config.targetSafeUtilizationPct, s.availableUsd, -1.0))
  {
    var b := StartBoard(venues, config);
    StartIsFresh(venues, config);
    forall i | 0 <= i < |venues| && venues[i].marginUtilization >= config.rebalanceThresholdPct
      ensures exists d :: d in b.deficits && d.slot == i
    {
      assert DeficitOf(i, venues[i], config) in b.deficits;
    }
    forall i | 0 <= i < |venues| && InSurplus(venues[i], config) ensures exists s :: s in b.surpluses && s.slot == i {
      assert SurplusOf(i, venues[i], config) in b.surpluses;
    }
    forall d | d in b.deficits
      ensures d.slot < |venues| && TargetGap(venues[d.slot], config.targetSafeUtilizationPct, d.neededUsd, 1.0)
    {
      GapToTarget(venues[d.slot], config, d.neededUsd, 1.0);
    }
    forall s | s in b.surpluses
      ensures s.slot < |venues| && TargetGap(venues[s.slot], config.targetSafeUtilizationPct, s.availableUsd, -1.0)
    {
      GapToTarget(venues[s.slot], config, s.availableUsd, -1.0);
    }
  }

  lemma ListsStandLargestFirst(venues: seq<VenueMarginHealth>, config: MarginRouterConfig)
    requires config.targetSafeUtilizationPct > 0.0
    ensures var b := StartBoard(venues, config);
      && (forall i, j :: 0 <= i < j < |b.deficits| ==> b.deficits[i].neededUsd >= b.deficits[j].neededUsd)
      && (forall i, j :: 0 <= i < j < |b.surpluses| ==> b.surpluses[i].availableUsd >= b.surpluses[j].availableUsd)
  {
    var b := StartBoard(venues, config);
    StartIsFresh(venues, config);
    assert forall i, j :: 0 <= i < j < |b.deficits| ==> !MoreNeeded(b.deficits[j], b.deficits[i]);
    assert forall i, j :: 0 <= i < j < |b.surpluses| ==> !MoreAvailable(b.surpluses[j], b.surpluses[i]);
  }

  // A sender keeps a margin of at most the target share of its collateral, a receiver is not lifted
  // beyond the target, nobody does both, and a bystander keeps what it had.
  ghost predicate SafeFor(v: VenueMarginHealth, target: real, sent: real, received: real, after: real) {
    && sent >= 0.0 && received >= 0.0
    && (sent > 0.0 ==> received == 0.0 && Margin(v) <= target * after)
    && (received > 0.0 ==> sent == 0.0 && target * after <= Margin(v))
    && (sent == 0.0 && received == 0.0 ==> after == Collateral(v))
  }

  // A venue that sends or receives no more than its distance from the target collateral.
  lemma SafeFromBounds(v: VenueMarginHealth, target: real, goal: real, sent: real, received: real, after: real)
    requires target > 0.0 && goal == Margin(v) / target && after == Collateral(v) - sent + received
    requires sent == 0.0 || 0.0 < sent <= Collateral(v) - goal
    requires received == 0.0 || 0.0 < received <= goal - Collateral(v)
    ensures SafeFor(v, target, sent, received, after)
  {
    TargetMeansUtilization(Margin(v), target, after);
  }

  lemma VenueIsSafe(venues: seq<VenueMarginHealth>, config: MarginRouterConfig, v: nat)
    requires v < |venues| && Inside(|venues|, Plan(venues, config))
    ensures var moves := Plan(venues, config);
      SafeFor(venues[v], config.targetSafeUtilizationPct, Total(FromSlot(v), moves), Total(ToSlot(v), moves),
              Apply(Collaterals(venues), moves)[v])
  {
    ApplyAt(Collaterals(venues), Plan(venues, config), v);
    if config.targetSafeUtilizationPct <= 0.0 {
      return;
    }
    ReceivedWithinNeed(venues, config, v);
    SentWithinSurplus(venues, config, v);
    var moves := Plan(venues, config);
    SafeFromBounds(venues[v], config.targetSafeUtilizationPct, TargetCollateral(venues[v], config),
                   Total(FromSlot(v), moves), Total(ToSlot(v), moves), Apply(Collaterals(venues), moves)[v]);
  }

  /** Safe rebalancing. Total collateral is conserved, and the transfers are safe for every venue; this needs no
      assumption on the configuration. */
  lemma TransfersAreSafe(venues: seq<VenueMarginHealth>, config: MarginRouterConfig)
    ensures var moves := Plan(venues, config);
      && Inside(|venues|, moves)
      && var after := Apply(Collaterals(venues), moves);
      && Total(Itself, after) == Total(Itself, Collaterals(venues))
      && forall v: nat :: v < |venues| ==>
           SafeFor(venues[v], config.targetSafeUtilizationPct, Total(FromSlot(v), moves), Total(ToSlot(v), moves),
                   after[v])
  {
    PlanStaysInside(venues, config);
    ApplyConserves(Collaterals(venues), Plan(venues, config));
    forall v: nat | v < |venues|
      ensures SafeFor(venues[v], config.targetSafeUtilizationPct, Total(FromSlot(v), Plan(venues, config)),
                      Total(ToSlot(v), Plan(venues, config)), Apply(Collaterals(venues), Plan(venues, config))[v])
    {
      VenueIsSafe(venues, config, v);
    }
  }

  /** Complete rebalancing. Without a positive minimum and with enough surplus, every venue in need ends exactly at the
      target utilization. */
  lemma EnoughSurplusCuresEveryDeficit(venues: seq<VenueMarginHealth>, config: MarginRouterConfig, v: nat)
    requires config.targetSafeUtilizationPct > 0.0 && config.minTransferAmountUsd <= 0.0 && v < |venues|
    requires var b := StartBoard(venues, config);
      Total(Needed, b.deficits) <= Total(Available, b.surpluses)
    requires InDeficit(venues[v], config) && Collateral(venues[v]) < TargetCollateral(venues[v], config)
    ensures Inside(|venues|, Plan(venues, config))
    ensures Apply(Collaterals(venues), Plan(venues, config))[v] == TargetCollateral(venues[v], config)
  {
    var b0 := StartBoard(venues, config);
    var b := Sweep(b0, config.minTransferAmountUsd, 0, 0);
    StartIsFresh(venues, config);
    SweepInvariant(b0, config.minTransferAmountUsd);
    MovesTheOptimum(b0, config.minTransferAmountUsd);
    PlanStaysInside(venues, config);
    ApplyAt(Collaterals(venues), b.moves, v);
    SentWithinSurplus(venues, config, v);
    var d := DeficitOf(v, venues[v], config);
    assert d in b0.deficits;
    var i :| 0 <= i < |b0.deficits| && b0.deficits[i] == d;
    TermOfZeroTotal(Needed, b.deficits, b.deficits[i]);
  }

  /** The plan has fewer transfers than the two lists have entries. */
  lemma PlanIsShort(venues: seq<VenueMarginHealth>, config: MarginRouterConfig)
    requires config.targetSafeUtilizationPct > 0.0 && Plan(venues, config) != []
    ensures var b := StartBoard(venues, config);
      |Plan(venues, config)| <= |b.deficits| + |b.surpluses| - 1
  {
    var b := StartBoard(venues, config);
    StartIsFresh(venues, config);
    SweepInvariant(b, config.minTransferAmountUsd);
    assert Listed(b, Plan(venues, config)[0]);
    FewTransfers(b, config.minTransferAmountUsd);
  }
}
