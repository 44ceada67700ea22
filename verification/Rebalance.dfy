/**
 The greedy collateral rebalancer (the nested loops of src/tree/margin/collateral-rebalance-router.ts):
 every deficit is offered every surplus in turn, and each pair moves as much as both allow.
 */
module Rebalance {
  import opened Rounding
  import opened Totals
  import opened VenueMargin

  // An entry of the deficit or surplus list; `slot` is the position of its venue among the snapshots.
  datatype Deficit = Deficit(slot: nat, neededUsd: real, health: VenueMarginHealth)

  datatype Surplus = Surplus(slot: nat, availableUsd: real, health: VenueMarginHealth)

  // A transfer with its exact amount.
  datatype Transfer = Transfer(from: nat, sender: VenueMarginHealth, to: nat, receiver: VenueMarginHealth, amount: real)

  // A transfer as it is reported.
  datatype CollateralTransferAction = CollateralTransferAction(
    fromVenueId: string, toVenueId: string, transferAmountUsd: real, postUtilizationFrom: real, postUtilizationTo: real)

  datatype Board = Board(deficits: seq<Deficit>, surpluses: seq<Surplus>, moves: seq<Transfer>)

  // A pair that moves nothing: a side is exhausted or the amount is below the minimum.
  predicate Blocked(d: Deficit, s: Surplus, min: real) {
    d.neededUsd <= 0.0 || s.availableUsd <= 0.0 || MinReal(d.neededUsd, s.availableUsd) < min
  }

  // The body of the inner loop for deficit i and surplus j.
  function Settle(b: Board, min: real, i: nat, j: nat): Board
    requires i < |b.deficits| && j < |b.surpluses|
  {
    var d, s := b.deficits[i], b.surpluses[j];
    var amount := MinReal(d.neededUsd, s.availableUsd);
    if Blocked(d, s, min) then b
    else Board(b.deficits[i := d.(neededUsd := d.neededUsd - amount)],
               b.surpluses[j := s.(availableUsd := s.availableUsd - amount)],
               b.moves + [Transfer(s.slot, s.health, d.slot, d.health, amount)])
  }

  // The nested loops from pair (i, j) on.
  function Sweep(b: Board, min: real, i: nat, j: nat): Board
    requires i <= |b.deficits| && j <= |b.surpluses|
    decreases |b.deficits| - i, |b.surpluses| - j
  {
    if i == |b.deficits| then b
    else if j == |b.surpluses| then Sweep(b, min, i + 1, 0)
    else Sweep(Settle(b, min, i, j), min, i, j + 1)
  }

  predicate Payable(t: Transfer) {
    t.amount > 0.0 && t.receiver.effectiveCollateralUsd >= 0.0
  }

  function ActionOf(t: Transfer): CollateralTransferAction
    requires Payable(t)
  {
    var postCollateralFrom := MaxReal(1.0, t.sender.effectiveCollateralUsd - t.amount);
    var postCollateralTo := t.receiver.effectiveCollateralUsd + t.amount;
    CollateralTransferAction(t.sender.venueId, t.receiver.venueId, RoundCents(t.amount),
                             RoundBps(t.sender.requiredMaintenanceMarginUsd / postCollateralFrom),
                             RoundBps(t.receiver.requiredMaintenanceMarginUsd / postCollateralTo))
  }

  // What is reported of a transfer: the two venues, its amount to the cent, and both utilizations to four decimals
  // as if it were the only transfer, with at least a dollar left on the sending side.
  ghost predicate Tells(a: CollateralTransferAction, t: Transfer) {
    && a.fromVenueId == t.sender.venueId && a.toVenueId == t.receiver.venueId
    && Near(a.transferAmountUsd, t.amount, 0.005)
    && (t.sender.effectiveCollateralUsd - t.amount >= 1.0 ==>
          Near(a.postUtilizationFrom,
               t.sender.requiredMaintenanceMarginUsd / (t.sender.effectiveCollateralUsd - t.amount), 0.00005))
    && (t.sender.effectiveCollateralUsd - t.amount < 1.0 ==>
          Near(a.postUtilizationFrom, t.sender.requiredMaintenanceMarginUsd, 0.00005))
    && t.receiver.effectiveCollateralUsd + t.amount > 0.0
    && Near(a.postUtilizationTo,
            t.receiver.requiredMaintenanceMarginUsd / (t.receiver.effectiveCollateralUsd + t.amount), 0.00005)
  }

  lemma ActionTells(t: Transfer)
    requires Payable(t)
    ensures Tells(ActionOf(t), t)
  {
    CentsError(t.amount);
    BpsError(t.sender.requiredMaintenanceMarginUsd / MaxReal(1.0, t.sender.effectiveCollateralUsd - t.amount));
    BpsError(t.receiver.requiredMaintenanceMarginUsd / (t.receiver.effectiveCollateralUsd + t.amount));
  }

  // One action for each transfer, in order.
  ghost predicate Reported(moves: seq<Transfer>, actions: seq<CollateralTransferAction>) {
    && |actions| == |moves|
    && forall k :: 0 <= k < |moves| ==> Payable(moves[k]) && Tells(actions[k], moves[k])
  }

  lemma ReportedPush(moves: seq<Transfer>, actions: seq<CollateralTransferAction>, t: Transfer)
    requires Reported(moves, actions) && Payable(t)
    ensures Reported(moves + [t], actions + [ActionOf(t)])
  {
    ActionTells(t);
  }

  // The two loops, decrementing the entries of both lists in place.
  method SettleAll(deficits: array<Deficit>, surpluses: array<Surplus>, min: real)
    returns (actions: seq<CollateralTransferAction>, ghost moves: seq<Transfer>)
    requires forall i :: 0 <= i < deficits.Length ==> deficits[i].health.effectiveCollateralUsd >= 0.0
    modifies deficits, surpluses
    ensures Board(deficits[..], surpluses[..], moves)
         == Sweep(Board(old(deficits[..]), old(surpluses[..]), []), min, 0, 0)
    ensures Reported(moves, actions)
  {
    actions, moves := [], [];
    ghost var goal := Sweep(Board(deficits[..], surpluses[..], []), min, 0, 0);
    for i := 0 to deficits.Length
      invariant Sweep(Board(deficits[..], surpluses[..], moves), min, i, 0) == goal
      invariant forall k :: 0 <= k < deficits.Length ==> deficits[k].health.effectiveCollateralUsd >= 0.0
      invariant Reported(moves, actions)
    {
      for j := 0 to surpluses.Length
        invariant Sweep(Board(deficits[..], surpluses[..], moves), min, i, j) == goal
        invariant forall k :: 0 <= k < deficits.Length ==> deficits[k].health.effectiveCollateralUsd >= 0.0
        invariant Reported(moves, actions)
      {
        ghost var before := Board(deficits[..], surpluses[..], moves);
        var def, sur := deficits[i], surpluses[j];
        if def.neededUsd <= 0.0 || sur.availableUsd <= 0.0 {
          continue;
        }
        var transferAmount := MinReal(def.neededUsd, sur.availableUsd);
        if transferAmount < min {
          continue;
        }
        var t := Transfer(sur.slot, sur.health, def.slot, def.health, transferAmount);
        deficits[i] := def.(neededUsd := def.neededUsd - transferAmount);
        surpluses[j] := sur.(availableUsd := sur.availableUsd - transferAmount);
        ReportedPush(moves, actions, t);
        moves := moves + [t];
        actions := actions + [ActionOf(t)];
        assert Board(deficits[..], surpluses[..], moves) == Settle(before, min, i, j);
      }
    }
  }

  // ----- what every pair keeps

  ghost function Needed(d: Deficit): real {
    d.neededUsd
  }

  ghost function Available(s: Surplus): real {
    s.availableUsd
  }

  ghost function Amount(t: Transfer): real {
    t.amount
  }

  ghost function OpenNeed(d: Deficit): real {
    if d.neededUsd > 0.0 then 1.0 else 0.0
  }

  ghost function OpenSurplus(s: Surplus): real {
    if s.availableUsd > 0.0 then 1.0 else 0.0
  }

  // What a venue receives and what it sends.
  ghost function ToSlot(v: nat): Transfer -> real {
    (t: Transfer) => if t.to == v then t.amount else 0.0
  }

  ghost function FromSlot(v: nat): Transfer -> real {
    (t: Transfer) => if t.from == v then t.amount else 0.0
  }

  ghost predicate OtherDeficit(d: Deficit, e: Deficit) {
    d.slot != e.slot
  }

  ghost predicate OtherSurplus(s: Surplus, t: Surplus) {
    s.slot != t.slot
  }

  // A fresh board: one entry a venue, no negative amount, nothing moved yet.
  ghost predicate Fresh(b: Board) {
    && b.moves == []
    && (forall i :: 0 <= i < |b.deficits| ==> b.deficits[i].neededUsd >= 0.0)
    && (forall j :: 0 <= j < |b.surpluses| ==> b.surpluses[j].availableUsd >= 0.0)
    && (forall i, k :: 0 <= i < |b.deficits| && 0 <= k < |b.deficits| && i != k ==>
          OtherDeficit(b.deficits[i], b.deficits[k]))
    && (forall j, k :: 0 <= j < |b.surpluses| && 0 <= k < |b.surpluses| && j != k ==>
          OtherSurplus(b.surpluses[j], b.surpluses[k]))
  }

  // Entries keep their venue, and only non-negative amounts remain.
  ghost predicate SameEntries(b0: Board, b: Board) {
    && |b.deficits| == |b0.deficits| && |b.surpluses| == |b0.surpluses|
    && (forall i :: 0 <= i < |b.deficits| ==>
          b.deficits[i] == b0.deficits[i].(neededUsd := b.deficits[i].neededUsd) && b.deficits[i].neededUsd >= 0.0)
    && (forall j :: 0 <= j < |b.surpluses| ==>
          b.surpluses[j] == b0.surpluses[j].(availableUsd := b.surpluses[j].availableUsd)
          && b.surpluses[j].availableUsd >= 0.0)
  }

  // Everything that left the lists is in the transfers, and each transfer joins two listed venues.
  ghost predicate Accounted(b0: Board, b: Board, min: real) {
    && Total(Needed, b.deficits) + Total(Amount, b.moves) == Total(Needed, b0.deficits)
    && Total(Available, b.surpluses) + Total(Amount, b.moves) == Total(Available, b0.surpluses)
    && (forall t :: t in b.moves ==> t.amount > 0.0 && t.amount >= min)
    && (forall t :: t in b.moves ==> Listed(b0, t))
  }

  ghost predicate Listed(b0: Board, t: Transfer) {
    && (exists i :: 0 <= i < |b0.deficits| && b0.deficits[i].slot == t.to && b0.deficits[i].health == t.receiver)
    && (exists j :: 0 <= j < |b0.surpluses| && b0.surpluses[j].slot == t.from && b0.surpluses[j].health == t.sender)
  }

  // Venue by venue: what a deficit received and a surplus sent is what its entry lost.
  ghost predicate Flows(b0: Board, b: Board) {
    && |b.deficits| == |b0.deficits| && |b.surpluses| == |b0.surpluses|
    && (forall i :: 0 <= i < |b.deficits| ==>
          b.deficits[i].neededUsd + Total(ToSlot(b.deficits[i].slot), b.moves) == b0.deficits[i].neededUsd)
    && (forall j :: 0 <= j < |b.surpluses| ==>
          b.surpluses[j].availableUsd + Total(FromSlot(b.surpluses[j].slot), b.moves) == b0.surpluses[j].availableUsd)
  }

  // The number of entries not yet exhausted, as a real.
  ghost function OpenEntries(b: Board): real {
    Total(OpenNeed, b.deficits) + Total(OpenSurplus, b.surpluses)
  }

  // Each transfer exhausts an entry, and the last one needed two entries that were still open.
  ghost predicate Few(b0: Board, b: Board) {
    && |b.moves| as real + OpenEntries(b) <= OpenEntries(b0)
    && (b.moves != [] ==> |b.moves| as real + 1.0 <= OpenEntries(b0))
  }

  // The pairs before (i, j) are blocked.
  ghost predicate DoneTo(b: Board, min: real, i: nat, j: nat) {
    forall p, q :: 0 <= p < |b.deficits| && 0 <= q < |b.surpluses| && (p < i || (p == i && q < j)) ==>
      Blocked(b.deficits[p], b.surpluses[q], min)
  }

  ghost predicate Inv(b0: Board, b: Board, min: real, i: nat, j: nat) {
    SameEntries(b0, b) && Accounted(b0, b, min) && Flows(b0, b) && Few(b0, b) && DoneTo(b, min, i, j)
  }

  lemma SettleKeepsEntries(b0: Board, b: Board, min: real, i: nat, j: nat)
    requires SameEntries(b0, b) && i < |b.deficits| && j < |b.surpluses| && DoneTo(b, min, i, j)
    ensures SameEntries(b0, Settle(b, min, i, j)) && DoneTo(Settle(b, min, i, j), min, i, j + 1)
  {
  }

  lemma SettleKeepsAccount(b0: Board, b: Board, min: real, i: nat, j: nat)
    requires SameEntries(b0, b) && Accounted(b0, b, min) && i < |b.deficits| && j < |b.surpluses|
    ensures Accounted(b0, Settle(b, min, i, j), min)
  {
    var d, s := b.deficits[i], b.surpluses[j];
    if !Blocked(d, s, min) {
      var amount := MinReal(d.neededUsd, s.availableUsd);
      var t := Transfer(s.slot, s.health, d.slot, d.health, amount);
      TotalUpdate(Needed, b.deficits, i, d.(neededUsd := d.neededUsd - amount));
      TotalUpdate(Available, b.surpluses, j, s.(availableUsd := s.availableUsd - amount));
      TotalPush(Amount, b.moves, t);
      assert b0.deficits[i].slot == t.to && b0.deficits[i].health == t.receiver;
      assert b0.surpluses[j].slot == t.from && b0.surpluses[j].health == t.sender;
      assert Listed(b0, t);
    }
  }

  lemma SettleKeepsFlows(b0: Board, b: Board, min: real, i: nat, j: nat)
    requires Fresh(b0) && SameEntries(b0, b) && Flows(b0, b) && i < |b.deficits| && j < |b.surpluses|
    ensures Flows(b0, Settle(b, min, i, j))
  {
    var d, s := b.deficits[i], b.surpluses[j];
    if !Blocked(d, s, min) {
      var b' := Settle(b, min, i, j);
      var t := Transfer(s.slot, s.health, d.slot, d.health, MinReal(d.neededUsd, s.availableUsd));
      forall k | 0 <= k < |b'.deficits|
        ensures b'.deficits[k].neededUsd + Total(ToSlot(b'.deficits[k].slot), b'.moves) == b0.deficits[k].neededUsd
      {
        TotalPush(ToSlot(b.deficits[k].slot), b.moves, t);
        assert k != i ==> OtherDeficit(b0.deficits[k], b0.deficits[i]);
      }
      forall k | 0 <= k < |b'.surpluses|
        ensures b'.surpluses[k].availableUsd + Total(FromSlot(b'.surpluses[k].slot), b'.moves)
             == b0.surpluses[k].availableUsd
      {
        TotalPush(FromSlot(b.surpluses[k].slot), b.moves, t);
        assert k != j ==> OtherSurplus(b0.surpluses[k], b0.surpluses[j]);
      }
    }
  }

  lemma OpenNeedFalls(ds: seq<Deficit>, i: nat, left: real)
    requires i < |ds| && ds[i].neededUsd > 0.0
    ensures Total(OpenNeed, ds) >= 1.0
    ensures Total(OpenNeed, ds[i := ds[i].(neededUsd := left)])
         == Total(OpenNeed, ds) - if left > 0.0 then 0.0 else 1.0
  {
    TotalUpdate(OpenNeed, ds, i, ds[i].(neededUsd := left));
    TotalUpdate(OpenNeed, ds, i, ds[i].(neededUsd := 0.0));
    TotalNonNegative(OpenNeed, ds[i := ds[i].(neededUsd := 0.0)]);
  }

  lemma OpenSurplusFalls(ss: seq<Surplus>, j: nat, left: real)
    requires j < |ss| && ss[j].availableUsd > 0.0
    ensures Total(OpenSurplus, ss) >= 1.0
    ensures Total(OpenSurplus, ss[j := ss[j].(availableUsd := left)])
         == Total(OpenSurplus, ss) - if left > 0.0 then 0.0 else 1.0
  {
    TotalUpdate(OpenSurplus, ss, j, ss[j].(availableUsd := left));
    TotalUpdate(OpenSurplus, ss, j, ss[j].(availableUsd := 0.0));
    TotalNonNegative(OpenSurplus, ss[j := ss[j].(availableUsd := 0.0)]);
  }

  lemma SettleKeepsFew(b0: Board, b: Board, min: real, i: nat, j: nat)
    requires Few(b0, b) && i < |b.deficits| && j < |b.surpluses|
    ensures Few(b0, Settle(b, min, i, j))
  {
    var d, s := b.deficits[i], b.surpluses[j];
    if !Blocked(d, s, min) {
      var amount := MinReal(d.neededUsd, s.availableUsd);
      OpenNeedFalls(b.deficits, i, d.neededUsd - amount);
      OpenSurplusFalls(b.surpluses, j, s.availableUsd - amount);
    }
  }

  lemma SettleKeeps(b0: Board, b: Board, min: real, i: nat, j: nat)
    requires Fresh(b0) && Inv(b0, b, min, i, j) && i < |b.deficits| && j < |b.surpluses|
    ensures Inv(b0, Settle(b, min, i, j), min, i, j + 1)
  {
    SettleKeepsEntries(b0, b, min, i, j);
    SettleKeepsAccount(b0, b, min, i, j);
    SettleKeepsFlows(b0, b, min, i, j);
    SettleKeepsFew(b0, b, min, i, j);
  }

  lemma NextRow(b0: Board, b: Board, min: real, i: nat)
    requires Inv(b0, b, min, i, |b.surpluses|)
    ensures Inv(b0, b, min, i + 1, 0)
  {
  }

  // A property of a board and a position that the body and the row change keep.
  ghost predicate Kept(holds: (Board, nat, nat) -> bool, min: real) {
    && (forall b: Board, i: nat, j: nat :: i < |b.deficits| && j < |b.surpluses| && holds(b, i, j) ==>
          holds(Settle(b, min, i, j), i, j + 1))
    && (forall b: Board, i: nat :: holds(b, i, |b.surpluses|) ==> holds(b, i + 1, 0))
  }

  // Induction over the nested loops.
  lemma {:induction false} SweepInduction(holds: (Board, nat, nat) -> bool, b: Board, min: real, i: nat, j: nat)
    requires Kept(holds, min) && holds(b, i, j)
    requires i <= |b.deficits| && j <= |b.surpluses| && (i == |b.deficits| ==> j == 0)
    ensures holds(Sweep(b, min, i, j), |b.deficits|, 0)
    decreases |b.deficits| - i, |b.surpluses| - j
  {
    if i < |b.deficits| {
      if j == |b.surpluses| {
        assert holds(b, i + 1, 0);
        SweepInduction(holds, b, min, i + 1, 0);
      } else {
        SweepInduction(holds, Settle(b, min, i, j), min, i, j + 1);
      }
    }
  }

  // What the finished board satisfies.
  lemma SweepInvariant(b0: Board, min: real)
    requires Fresh(b0)
    ensures Inv(b0, Sweep(b0, min, 0, 0), min, |b0.deficits|, 0)
  {
    var holds := (b: Board, i: nat, j: nat) => Inv(b0, b, min, i, j);
    forall b: Board, i: nat, j: nat | i < |b.deficits| && j < |b.surpluses| && holds(b, i, j)
      ensures holds(Settle(b, min, i, j), i, j + 1)
    {
      SettleKeeps(b0, b, min, i, j);
    }
    forall b: Board, i: nat | holds(b, i, |b.surpluses|) ensures holds(b, i + 1, 0) {
      NextRow(b0, b, min, i);
    }
    assert Kept(holds, min);
    assert holds(b0, 0, 0);
    SweepInduction(holds, b0, min, 0, 0);
  }

  // ----- the results

  lemma {:induction false} CountAtMost<T>(measure: T -> real, s: seq<T>, cap: real)
    requires forall x :: x in s ==> measure(x) <= cap
    ensures Total(measure, s) <= cap * |s| as real
  {
    if s != [] {
      CountAtMost(measure, s[..|s| - 1], cap);
      assert cap * |s| as real == cap * (|s| - 1) as real + cap;
    }
  }

  /** Maximal: when the loops stop, every remaining deficit and surplus could only exchange less than the minimum. */
  lemma NothingLeftToMove(b0: Board, min: real)
    requires Fresh(b0)
    ensures var b := Sweep(b0, min, 0, 0);
      forall d, s :: d in b.deficits && s in b.surpluses ==>
        Blocked(d, s, min) && (min > 0.0 ==> MinReal(d.neededUsd, s.availableUsd) < min)
  {
    SweepInvariant(b0, min);
  }

  // The entries before each one come first: an entry is untouched as long as an earlier one is not used up.
  ghost predicate InTurn(b0: Board, b: Board, i: nat) {
    && |b.deficits| == |b0.deficits| && |b.surpluses| == |b0.surpluses|
    && (forall k :: i < k < |b.deficits| ==> b.deficits[k] == b0.deficits[k])
    && (forall p, k :: 0 <= p < k < |b.deficits| && p < i && b.deficits[p].neededUsd > 0.0 ==>
          b.deficits[k] == b0.deficits[k])
    && (forall q, l :: 0 <= q < l < |b.surpluses| && b.surpluses[q].availableUsd > 0.0 ==>
          b.surpluses[l] == b0.surpluses[l])
  }

  lemma SettleInTurn(b0: Board, b: Board, min: real, i: nat, j: nat)
    requires min <= 0.0 && i < |b.deficits| && j < |b.surpluses| && InTurn(b0, b, i) && DoneTo(b, min, i, j)
    requires forall q :: 0 <= q < |b.surpluses| ==> b.surpluses[q].availableUsd >= 0.0
    ensures InTurn(b0, Settle(b, min, i, j), i)
  {
    var d, s := b.deficits[i], b.surpluses[j];
    if !Blocked(d, s, min) {
      forall p | 0 <= p < i ensures b.deficits[p].neededUsd <= 0.0 {
        assert Blocked(b.deficits[p], s, min);
      }
      forall q | 0 <= q < j ensures b.surpluses[q].availableUsd <= 0.0 {
        assert Blocked(d, b.surpluses[q], min);
      }
    }
  }

  lemma RowInTurn(b0: Board, b: Board, min: real, i: nat)
    requires InTurn(b0, b, i) && DoneTo(b, min, i, |b.surpluses|)
    ensures InTurn(b0, b, i + 1) && DoneTo(b, min, i + 1, 0)
  {
  }

  /** In turn: without a positive minimum an entry of either list gets nothing to do as long as an earlier one, which is
      no smaller, is not used up. */
  lemma EntriesTakeTurns(b0: Board, min: real)
    requires Fresh(b0) && min <= 0.0
    ensures var b := Sweep(b0, min, 0, 0);
      && |b.deficits| == |b0.deficits| && |b.surpluses| == |b0.surpluses|
      && (forall p, k :: 0 <= p < k < |b.deficits| && b.deficits[p].neededUsd > 0.0 ==>
            b.deficits[k] == b0.deficits[k])
      && (forall q, l :: 0 <= q < l < |b.surpluses| && b.surpluses[q].availableUsd > 0.0 ==>
            b.surpluses[l] == b0.surpluses[l])
  {
    var holds := (b: Board, i: nat, j: nat) => SameEntries(b0, b) && DoneTo(b, min, i, j) && InTurn(b0, b, i);
    forall b: Board, i: nat, j: nat | i < |b.deficits| && j < |b.surpluses| && holds(b, i, j)
      ensures holds(Settle(b, min, i, j), i, j + 1)
    {
      SettleKeepsEntries(b0, b, min, i, j);
      SettleInTurn(b0, b, min, i, j);
    }
    forall b: Board, i: nat | holds(b, i, |b.surpluses|) ensures holds(b, i + 1, 0) {
      RowInTurn(b0, b, min, i);
    }
    assert Kept(holds, min);
    assert SameEntries(b0, b0) && DoneTo(b0, min, 0, 0) && InTurn(b0, b0, 0);
    assert holds(b0, 0, 0);
    SweepInduction(holds, b0, min, 0, 0);
  }

  /** Few transfers: at most one fewer than the entries on both sides. */
  lemma FewTransfers(b0: Board, min: real)
    requires Fresh(b0) && b0.deficits != [] && b0.surpluses != []
    ensures |Sweep(b0, min, 0, 0).moves| <= |b0.deficits| + |b0.surpluses| - 1
  {
    SweepInvariant(b0, min);
    CountAtMost(OpenNeed, b0.deficits, 1.0);
    CountAtMost(OpenSurplus, b0.surpluses, 1.0);
  }

  // The measure that counts every entry x.
  ghost function Each<T>(x: real): T -> real {
    (entry: T) => x
  }

  lemma {:induction false} EachDependsOnLength<T>(x: real, s: seq<T>, t: seq<T>)
    requires |s| == |t|
    ensures Total(Each(x), s) == Total(Each(x), t)
  {
    if s != [] {
      EachDependsOnLength(x, s[..|s| - 1], t[..|t| - 1]);
    }
  }

  // If no pair can exchange the minimum, one side has less than the minimum in every entry.
  lemma OneSideIsSmall(b: Board, min: real)
    requires forall d, s :: d in b.deficits && s in b.surpluses ==> MinReal(d.neededUsd, s.availableUsd) < min
    ensures Total(Needed, b.deficits) <= Total(Each(min), b.deficits)
         || Total(Available, b.surpluses) <= Total(Each(min), b.surpluses)
  {
    if d :| d in b.deficits && d.neededUsd >= min {
      forall s | s in b.surpluses ensures Available(s) <= min {
        assert MinReal(d.neededUsd, s.availableUsd) < min;
      }
      TotalAtMost(Available, Each(min), b.surpluses);
    } else {
      TotalAtMost(Needed, Each(min), b.deficits);
    }
  }

  // What is left on the smaller side is what was not moved.
  lemma MovedAndLeft(b0: Board, min: real)
    requires Fresh(b0)
    ensures var b := Sweep(b0, min, 0, 0);
      var best := MinReal(Total(Needed, b0.deficits), Total(Available, b0.surpluses));
      && |b.deficits| == |b0.deficits| && |b.surpluses| == |b0.surpluses|
      && 0.0 <= Total(Needed, b.deficits) && 0.0 <= Total(Available, b.surpluses)
      && (forall d :: d in b.deficits ==> d.neededUsd >= 0.0)
      && (forall s :: s in b.surpluses ==> s.availableUsd >= 0.0)
      && best - Total(Amount, b.moves) == MinReal(Total(Needed, b.deficits), Total(Available, b.surpluses))
  {
    var b := Sweep(b0, min, 0, 0);
    SweepInvariant(b0, min);
    TotalNonNegative(Needed, b.deficits);
    TotalNonNegative(Available, b.surpluses);
  }

  // If no pair can exchange anything, one side is empty.
  lemma OneSideIsEmpty(b: Board, min: real)
    requires min <= 0.0
    requires forall d :: d in b.deficits ==> d.neededUsd >= 0.0
    requires forall s :: s in b.surpluses ==> s.availableUsd >= 0.0
    requires forall d, s :: d in b.deficits && s in b.surpluses ==> Blocked(d, s, min)
    ensures Total(Needed, b.deficits) == 0.0 || Total(Available, b.surpluses) == 0.0
  {
    if d :| d in b.deficits && d.neededUsd > 0.0 {
      forall s | s in b.surpluses ensures Available(s) == 0.0 {
        assert Blocked(d, s, min);
      }
      ZeroTotal(Available, b.surpluses);
    } else {
      ZeroTotal(Needed, b.deficits);
    }
  }

  /** Optimal: without a positive minimum the loops move the whole of the smaller side. */
  lemma MovesTheOptimum(b0: Board, min: real)
    requires Fresh(b0) && min <= 0.0
    ensures Total(Amount, Sweep(b0, min, 0, 0).moves)
         == MinReal(Total(Needed, b0.deficits), Total(Available, b0.surpluses))
  {
    MovedAndLeft(b0, min);
    NothingLeftToMove(b0, min);
    OneSideIsEmpty(Sweep(b0, min, 0, 0), min);
  }

  /** With a positive minimum the shortfall against the optimum is at most one minimum for each entry of one of the
      two lists. */
  lemma ShortfallIsBounded(b0: Board, min: real)
    requires Fresh(b0) && min > 0.0
    ensures var moved := Total(Amount, Sweep(b0, min, 0, 0).moves);
      var best := MinReal(Total(Needed, b0.deficits), Total(Available, b0.surpluses));
      && moved <= best
      && (best - moved <= Total(Each(min), b0.deficits) || best - moved <= Total(Each(min), b0.surpluses))
  {
    var b := Sweep(b0, min, 0, 0);
    NothingLeftToMove(b0, min);
    MovedAndLeft(b0, min);
    OneSideIsSmall(b, min);
    EachDependsOnLength(min, b.deficits, b0.deficits);
    EachDependsOnLength(min, b.surpluses, b0.surpluses);
  }

  // Any plan: transfers between listed venues that give no deficit more than it needs and take no
  // more from a surplus than it has.
  ghost predicate Feasible(b0: Board, plan: seq<Transfer>) {
    && (forall t :: t in plan ==> t.amount >= 0.0 && Listed(b0, t))
    && (forall d :: d in b0.deficits ==> Total(ToSlot(d.slot), plan) <= d.neededUsd)
    && (forall s :: s in b0.surpluses ==> Total(FromSlot(s.slot), plan) <= s.availableUsd)
  }

  ghost function ReceivedIn(plan: seq<Transfer>): Deficit -> real {
    (d: Deficit) => Total(ToSlot(d.slot), plan)
  }

  ghost function SentIn(plan: seq<Transfer>): Surplus -> real {
    (s: Surplus) => Total(FromSlot(s.slot), plan)
  }

  // A transfer adds its amount at least once to what all deficits together receive.
  lemma {:induction false} OneMoreReceived(plan: seq<Transfer>, t: Transfer, ds: seq<Deficit>)
    requires t.amount >= 0.0
    ensures Total(ReceivedIn(plan + [t]), ds)
         >= Total(ReceivedIn(plan), ds) + (if exists d :: d in ds && d.slot == t.to then t.amount else 0.0)
  {
    if ds != [] {
      OneMoreReceived(plan, t, ds[..|ds| - 1]);
      TotalPush(ToSlot(ds[|ds| - 1].slot), plan, t);
    }
  }

  lemma {:induction false} OneMoreSent(plan: seq<Transfer>, t: Transfer, ss: seq<Surplus>)
    requires t.amount >= 0.0
    ensures Total(SentIn(plan + [t]), ss)
         >= Total(SentIn(plan), ss) + (if exists s :: s in ss && s.slot == t.from then t.amount else 0.0)
  {
    if ss != [] {
      OneMoreSent(plan, t, ss[..|ss| - 1]);
      TotalPush(FromSlot(ss[|ss| - 1].slot), plan, t);
    }
  }

  lemma {:induction false} PlanIsReceived(b0: Board, plan: seq<Transfer>)
    requires forall t :: t in plan ==> t.amount >= 0.0 && Listed(b0, t)
    ensures Total(Amount, plan) <= Total(ReceivedIn(plan), b0.deficits)
    ensures Total(Amount, plan) <= Total(SentIn(plan), b0.surpluses)
  {
    if plan == [] {
      ZeroTotal(ReceivedIn(plan), b0.deficits);
      ZeroTotal(SentIn(plan), b0.surpluses);
    } else {
      var front, last := plan[..|plan| - 1], plan[|plan| - 1];
      PlanIsReceived(b0, front);
      assert plan == front + [last] && Listed(b0, last);
      OneMoreReceived(front, last, b0.deficits);
      OneMoreSent(front, last, b0.surpluses);
      var i :| 0 <= i < |b0.deficits| && b0.deficits[i].slot == last.to;
      var j :| 0 <= j < |b0.surpluses| && b0.surpluses[j].slot == last.from;
      assert b0.deficits[i] in b0.deficits && b0.surpluses[j] in b0.surpluses;
    }
  }

  /** No plan whatsoever moves more than the smaller side; the plan of the loops is one of the feasible plans. */
  lemma NoPlanMovesMore(b0: Board, plan: seq<Transfer>)
    requires Feasible(b0, plan)
    ensures Total(Amount, plan) <= MinReal(Total(Needed, b0.deficits), Total(Available, b0.surpluses))
  {
    PlanIsReceived(b0, plan);
    TotalAtMost(ReceivedIn(plan), Needed, b0.deficits);
    TotalAtMost(SentIn(plan), Available, b0.surpluses);
  }

  lemma SweepIsFeasible(b0: Board, min: real)
    requires Fresh(b0)
    ensures Feasible(b0, Sweep(b0, min, 0, 0).moves)
  {
    var b := Sweep(b0, min, 0, 0);
    SweepInvariant(b0, min);
    forall d | d in b0.deficits ensures Total(ToSlot(d.slot), b.moves) <= d.neededUsd {
      var i :| 0 <= i < |b0.deficits| && b0.deficits[i] == d;
      assert b.deficits[i].slot == d.slot;
    }
    forall s | s in b0.surpluses ensures Total(FromSlot(s.slot), b.moves) <= s.availableUsd {
      var j :| 0 <= j < |b0.surpluses| && b0.surpluses[j] == s;
      assert b.surpluses[j].slot == s.slot;
    }
  }
}
