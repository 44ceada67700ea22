/**
 What first-in-first-out matching promises: units are conserved lot by lot and sell by sell, lots are
 consumed in purchase order, trades are few and come out in exit order.
 */
module LotMatchingFifo {
  import opened ExchangeTypes
  import opened PaperExchange
  import opened LotMatching
  import opened Rounding
  import opened Totals

  // Every lot ever bought, in purchase order and in its current state.
  ghost function Lots(b: Book): seq<OpenBuyLot> {
    b.retired + b.open
  }

  // The lot as it was when it was bought.
  ghost function Fresh(lot: OpenBuyLot): OpenBuyLot {
    lot.(remainingQty := lot.quantity)
  }

  ghost function Purchases(fills: seq<Fill>): seq<OpenBuyLot> {
    if fills == [] then []
    else
      var rest := Purchases(fills[..|fills| - 1]);
      var last := fills[|fills| - 1];
      if last.side == Buy then rest + [NewLot(last)] else rest
  }

  // The units taken from lot number k.
  ghost function MatchedFrom(matches: seq<Match>, k: nat): real {
    if matches == [] then 0.0
    else
      var last := matches[|matches| - 1];
      MatchedFrom(matches[..|matches| - 1], k) + if last.lotNo == k then last.qty else 0.0
  }

  ghost function MatchQty(m: Match): real {
    m.qty
  }

  ghost function LeftoverQty(l: Leftover): real {
    l.qty
  }

  ghost function SoldQty(f: Fill): real {
    if f.side == Sell then f.quantity else 0.0
  }

  ghost function Remaining(lot: OpenBuyLot): real {
    lot.remainingQty
  }

  // The lots are the purchases, and bought = matched + what is left (open, or dropped as dust).
  ghost predicate UnitsKept(lots: seq<OpenBuyLot>, matches: seq<Match>, bought: seq<OpenBuyLot>) {
    && |lots| == |bought|
    && (forall k :: 0 <= k < |bought| ==> Fresh(lots[k]) == bought[k])
    && (forall k :: 0 <= k < |bought| ==> bought[k].quantity == MatchedFrom(matches, k) + lots[k].remainingQty)
  }

  ghost predicate Fifo(cutoff: real, b: Book, bought: seq<OpenBuyLot>) {
    && UnitsKept(Lots(b), b.matches, bought)
    && MatchesInOrder(b.matches, bought, |b.retired|)
    && (forall lot :: lot in b.retired ==> lot.remainingQty <= cutoff)
  }

  ghost predicate MatchesInOrder(matches: seq<Match>, bought: seq<OpenBuyLot>, oldest: nat) {
    // every match is against a lot that was really bought, and none is beyond the oldest open lot
    && (forall m :: m in matches ==> m.lotNo <= oldest && m.lotNo < |bought| && Fresh(m.lot) == bought[m.lotNo])
    && (forall i, j :: 0 <= i < j < |matches| ==> matches[i].lotNo <= matches[j].lotNo)
  }

  lemma MatchKeepsUnits(lots: seq<OpenBuyLot>, matches: seq<Match>, bought: seq<OpenBuyLot>, n: nat, f: Fill, qty: real)
    requires UnitsKept(lots, matches, bought) && n < |lots|
    ensures UnitsKept(lots[n := lots[n].(remainingQty := lots[n].remainingQty - qty)],
                      matches + [Match(n, lots[n], f, qty)], bought)
  {
    assert (matches + [Match(n, lots[n], f, qty)])[..|matches|] == matches;
    assert Fresh(lots[n]) == bought[n];
  }

  lemma HeadKeepsFifo(cutoff: real, b: Book, bought: seq<OpenBuyLot>, f: Fill, left: real)
    requires b.open != [] && Fifo(cutoff, b, bought)
    ensures Fifo(cutoff, MatchHead(cutoff, b, f, left), bought)
  {
    var b' := MatchHead(cutoff, b, f, left);
    var n := |b.retired|;
    var qty := MinReal(b.open[0].remainingQty, left);
    var rest := b.open[0].(remainingQty := b.open[0].remainingQty - qty);
    var paired := Match(n, b.open[0], f, qty);
    assert Lots(b)[n] == b.open[0];
    assert Lots(b') == Lots(b)[n := rest];
    MatchKeepsUnits(Lots(b), b.matches, bought, n, f, qty);
    assert Fresh(b.open[0]) == bought[n];
  }

  lemma {:induction false} SellKeepsFifo(cutoff: real, b: Book, bought: seq<OpenBuyLot>, f: Fill, left: real)
    requires cutoff >= 0.0 && Fifo(cutoff, b, bought)
    ensures Fifo(cutoff, MatchSell(cutoff, b, f, left).0, bought)
    decreases |b.open|, if left > cutoff then 1 else 0
  {
    if left > cutoff && b.open != [] {
      HeadKeepsFifo(cutoff, b, bought, f, left);
      SellKeepsFifo(cutoff, MatchHead(cutoff, b, f, left), bought, f, left - MinReal(b.open[0].remainingQty, left));
    }
  }

  lemma UntouchedLot(matches: seq<Match>, k: nat)
    requires forall m :: m in matches ==> m.lotNo < k
    ensures MatchedFrom(matches, k) == 0.0
  {
  }

  /** After any fills the lots are exactly the purchases, units are conserved in each of them, trades take lots in
      purchase order, and a trade against lot k happens only once every earlier lot is down to the cutoff. */
  lemma {:induction false} FifoHolds(cutoff: real, fills: seq<Fill>)
    requires cutoff >= 0.0
    ensures Fifo(cutoff, Run(cutoff, fills), Purchases(fills))
  {
    if fills != [] {
      var front := fills[..|fills| - 1];
      var last := fills[|fills| - 1];
      FifoHolds(cutoff, front);
      var b := Run(cutoff, front);
      if last.side == Buy {
        var b' := Step(cutoff, b, last);
        assert Lots(b') == Lots(b) + [NewLot(last)];
        UntouchedLot(b.matches, |Lots(b)|);
      } else {
        SellKeepsFifo(cutoff, b, Purchases(front), last, last.quantity);
      }
    }
  }

  // A later lot is never touched while an earlier one is open: whenever lot k has been
  // matched, every lot bought before it holds no more than the cutoff.
  lemma EarlierLotsFirst(cutoff: real, fills: seq<Fill>, m: Match, j: nat)
    requires cutoff >= 0.0
    requires m in Run(cutoff, fills).matches && j < m.lotNo
    ensures j < |Lots(Run(cutoff, fills))| && Lots(Run(cutoff, fills))[j].remainingQty <= cutoff
  {
    FifoHolds(cutoff, fills);
    var b := Run(cutoff, fills);
    assert Lots(b)[j] == b.retired[j];
  }

  lemma {:induction false} SellCounts(cutoff: real, b: Book, f: Fill, left: real)
    requires cutoff >= 0.0
    ensures var (b', left') := MatchSell(cutoff, b, f, left);
      && |b'.matches| + |b.retired| <= |b.matches| + |b'.retired| + (if left > cutoff then 1 else 0)
      && |b'.retired| + |b'.open| == |b.retired| + |b.open|
      && b'.leftovers == b.leftovers
      && Total(MatchQty, b'.matches) + left' == Total(MatchQty, b.matches) + left
    decreases |b.open|, if left > cutoff then 1 else 0
  {
    if left > cutoff && b.open != [] {
      var qty := MinReal(b.open[0].remainingQty, left);
      TotalPush(MatchQty, b.matches, Match(|b.retired|, b.open[0], f, qty));
      SellCounts(cutoff, MatchHead(cutoff, b, f, left), f, left - qty);
    }
  }

  /** Each trade either uses up a lot or ends its sell, so there are at most as many trades as used-up lots and
      sells together; and the units sold are the units matched plus the leftovers. */
  lemma {:induction false} FewTrades(cutoff: real, fills: seq<Fill>)
    requires cutoff >= 0.0
    ensures var b := Run(cutoff, fills);
      && |b.matches| <= |b.retired| + |b.leftovers|
      && |b.retired| + |b.open| + |b.leftovers| == |fills|
      && Total(SoldQty, fills) == Total(MatchQty, b.matches) + Total(LeftoverQty, b.leftovers)
  {
    if fills != [] {
      var front := fills[..|fills| - 1];
      var last := fills[|fills| - 1];
      FewTrades(cutoff, front);
      var b := Run(cutoff, front);
      TotalPush(SoldQty, front, last);
      assert front + [last] == fills;
      if last.side == Sell {
        SellCounts(cutoff, b, last, last.quantity);
        var (b', left) := MatchSell(cutoff, b, last, last.quantity);
        TotalPush(LeftoverQty, b.leftovers, Leftover(last, left));
      }
    }
  }

  ghost predicate Chronological(fills: seq<Fill>) {
    forall i, j :: 0 <= i < j < |fills| ==> fills[i].timestamp <= fills[j].timestamp
  }

  // Matches and lots date from no later than `now`, exits are in order and follow their entries.
  ghost predicate InTime(b: Book, now: int) {
    && (forall lot :: lot in b.open ==> lot.timestamp <= now)
    && (forall m :: m in b.matches ==> m.lot.timestamp <= m.exit.timestamp <= now)
    && (forall i, j :: 0 <= i < j < |b.matches| ==> b.matches[i].exit.timestamp <= b.matches[j].exit.timestamp)
  }

  lemma {:induction false} SellInTime(cutoff: real, b: Book, f: Fill, left: real)
    requires cutoff >= 0.0 && InTime(b, f.timestamp)
    ensures InTime(MatchSell(cutoff, b, f, left).0, f.timestamp)
    decreases |b.open|, if left > cutoff then 1 else 0
  {
    if left > cutoff && b.open != [] {
      SellInTime(cutoff, MatchHead(cutoff, b, f, left), f, left - MinReal(b.open[0].remainingQty, left));
    }
  }

  // On chronological fills the trades come out in exit order, each entered before it is left.
  lemma {:induction false} ExitsInOrder(cutoff: real, fills: seq<Fill>)
    requires cutoff >= 0.0 && Chronological(fills)
    ensures fills != [] ==> InTime(Run(cutoff, fills), fills[|fills| - 1].timestamp)
    ensures var ms := Run(cutoff, fills).matches;
      forall i, j :: 0 <= i < j < |ms| ==> ms[i].exit.timestamp <= ms[j].exit.timestamp
  {
    if fills != [] {
      var front := fills[..|fills| - 1];
      var last := fills[|fills| - 1];
      ExitsInOrder(cutoff, front);
      assert InTime(Run(cutoff, front), last.timestamp);
      if last.side == Sell {
        SellInTime(cutoff, Run(cutoff, front), last, last.quantity);
      }
    }
  }

  // No quantity in the book is negative, and what was dropped is at most the cutoff.
  ghost predicate NonNegative(cutoff: real, b: Book) {
    && (forall lot :: lot in b.open ==> lot.remainingQty >= 0.0)
    && (forall lot :: lot in b.retired ==> 0.0 <= lot.remainingQty <= cutoff)
    && (forall m :: m in b.matches ==> m.qty >= 0.0)
    && (forall l :: l in b.leftovers ==> l.qty >= 0.0)
  }

  lemma {:induction false} SellNonNegative(cutoff: real, b: Book, f: Fill, left: real)
    requires cutoff >= 0.0 && left >= 0.0 && NonNegative(cutoff, b)
    ensures NonNegative(cutoff, MatchSell(cutoff, b, f, left).0) && MatchSell(cutoff, b, f, left).1 >= 0.0
    decreases |b.open|, if left > cutoff then 1 else 0
  {
    if left > cutoff && b.open != [] {
      SellNonNegative(cutoff, MatchHead(cutoff, b, f, left), f, left - MinReal(b.open[0].remainingQty, left));
    }
  }

  lemma {:induction false} QuantitiesNonNegative(cutoff: real, fills: seq<Fill>)
    requires cutoff >= 0.0 && forall f :: f in fills ==> f.quantity >= 0.0
    ensures NonNegative(cutoff, Run(cutoff, fills))
  {
    if fills != [] {
      var last := fills[|fills| - 1];
      QuantitiesNonNegative(cutoff, fills[..|fills| - 1]);
      if last.side == Sell {
        SellNonNegative(cutoff, Run(cutoff, fills[..|fills| - 1]), last, last.quantity);
      }
    }
  }

  // Each sell asks for no more units than the open lots hold when it arrives.
  ghost predicate Covered(cutoff: real, fills: seq<Fill>)
    requires cutoff >= 0.0
  {
    fills != [] ==>
      var front := fills[..|fills| - 1];
      var last := fills[|fills| - 1];
      Covered(cutoff, front) && (last.side == Sell ==> last.quantity <= Total(Remaining, Run(cutoff, front).open))
  }

  lemma {:induction false} CoveredSellIsMatched(cutoff: real, b: Book, f: Fill, left: real)
    requires cutoff >= 0.0 && left <= Total(Remaining, b.open)
    ensures MatchSell(cutoff, b, f, left).1 <= cutoff
    decreases |b.open|, if left > cutoff then 1 else 0
  {
    if left > cutoff && b.open != [] {
      var qty := MinReal(b.open[0].remainingQty, left);
      if qty < left {
        TotalHead(Remaining, b.open);
        CoveredSellIsMatched(cutoff, MatchHead(cutoff, b, f, left), f, left - qty);
      }
    }
  }

  ghost predicate AtMostDust(cutoff: real, ls: seq<Leftover>) {
    forall l :: l in ls ==> l.qty <= cutoff
  }

  lemma CoveredSellLeavesDust(cutoff: real, b: Book, f: Fill)
    requires cutoff >= 0.0 && f.side == Sell && f.quantity <= Total(Remaining, b.open)
    requires AtMostDust(cutoff, b.leftovers)
    ensures AtMostDust(cutoff, Step(cutoff, b, f).leftovers)
  {
    CoveredSellIsMatched(cutoff, b, f, f.quantity);
    SellCounts(cutoff, b, f, f.quantity);
  }

  // A covered sell is matched down to the cutoff.
  lemma {:induction false} CoveredLeavesDust(cutoff: real, fills: seq<Fill>)
    requires cutoff >= 0.0 && Covered(cutoff, fills)
    ensures AtMostDust(cutoff, Run(cutoff, fills).leftovers)
  {
    if fills != [] {
      var front := fills[..|fills| - 1];
      var last := fills[|fills| - 1];
      CoveredLeavesDust(cutoff, front);
      if last.side == Sell {
        CoveredSellLeavesDust(cutoff, Run(cutoff, front), last);
      }
    }
  }

  lemma HeadTakes(cutoff: real, b: Book, f: Fill, left: real)
    requires b.open != [] && left >= 0.0 && NonNegative(cutoff, b)
    ensures NonNegative(cutoff, MatchHead(cutoff, b, f, left))
    ensures Total(Remaining, MatchHead(cutoff, b, f, left).open)
         <= Total(Remaining, b.open) - MinReal(b.open[0].remainingQty, left)
  {
    var lot := b.open[0];
    TotalHead(Remaining, b.open);
    TotalUpdate(Remaining, b.open, 0, lot.(remainingQty := lot.remainingQty - MinReal(lot.remainingQty, left)));
  }

  // A sell leaves at least what it asks for beyond the open lots.
  lemma {:induction false} SellLeavesExcess(cutoff: real, b: Book, f: Fill, left: real)
    requires cutoff >= 0.0 && left >= 0.0 && NonNegative(cutoff, b)
    ensures MatchSell(cutoff, b, f, left).1 >= left - Total(Remaining, b.open)
    decreases |b.open|, if left > cutoff then 1 else 0
  {
    if left > cutoff && b.open != [] {
      HeadTakes(cutoff, b, f, left);
      SellLeavesExcess(cutoff, MatchHead(cutoff, b, f, left), f, left - MinReal(b.open[0].remainingQty, left));
    } else {
      TotalNonNegative(Remaining, b.open);
    }
  }

  // So fills whose sells leave nothing were covered.
  lemma {:induction false} NothingLeftMeansCovered(cutoff: real, fills: seq<Fill>)
    requires cutoff >= 0.0 && forall f :: f in fills ==> f.quantity >= 0.0
    requires forall l :: l in Run(cutoff, fills).leftovers ==> l.qty <= 0.0
    ensures Covered(cutoff, fills)
  {
    if fills != [] {
      var front := fills[..|fills| - 1];
      var last := fills[|fills| - 1];
      if last.side == Sell {
        LastSellCovered(cutoff, front, last);
        assert fills == front + [last];
      }
      NothingLeftMeansCovered(cutoff, front);
    }
  }

  lemma LastSellCovered(cutoff: real, front: seq<Fill>, last: Fill)
    requires cutoff >= 0.0 && last.side == Sell && last.quantity >= 0.0
    requires forall f :: f in front ==> f.quantity >= 0.0
    requires forall l :: l in Run(cutoff, front + [last]).leftovers ==> l.qty <= 0.0
    ensures last.quantity <= Total(Remaining, Run(cutoff, front).open)
    ensures forall l :: l in Run(cutoff, front).leftovers ==> l.qty <= 0.0
  {
    var b := Run(cutoff, front);
    assert (front + [last])[..|front|] == front;
    QuantitiesNonNegative(cutoff, front);
    SellCounts(cutoff, b, last, last.quantity);
    SellLeavesExcess(cutoff, b, last, last.quantity);
    var left := MatchSell(cutoff, b, last, last.quantity).1;
    assert Leftover(last, left) in Step(cutoff, b, last).leftovers;
  }

  lemma {:induction false} LeftoversAreOfSells(cutoff: real, fills: seq<Fill>)
    requires cutoff >= 0.0
    ensures forall l :: l in Run(cutoff, fills).leftovers ==> l.exit in fills && l.exit.side == Sell
  {
    if fills != [] {
      var front := fills[..|fills| - 1];
      var last := fills[|fills| - 1];
      LeftoversAreOfSells(cutoff, front);
      if last.side == Sell {
        SellCounts(cutoff, Run(cutoff, front), last, last.quantity);
      }
    }
  }

  // Nothing at most the cutoff is traded or stays open, but for whole lots that were bought so small.
  ghost predicate NoDust(cutoff: real, b: Book) {
    && (forall lot :: lot in b.open ==> lot.remainingQty > cutoff || lot.remainingQty == lot.quantity)
    && (forall m :: m in b.matches ==> m.qty > cutoff || m.qty == m.lot.quantity)
  }

  lemma HeadHasNoDust(cutoff: real, b: Book, f: Fill, left: real)
    requires b.open != [] && left > cutoff && NoDust(cutoff, b)
    ensures NoDust(cutoff, MatchHead(cutoff, b, f, left))
  {
    assert b.open[0] in b.open;
  }

  lemma {:induction false} SellHasNoDust(cutoff: real, b: Book, f: Fill, left: real)
    requires cutoff >= 0.0 && NoDust(cutoff, b)
    ensures var (b', left') := MatchSell(cutoff, b, f, left);
      NoDust(cutoff, b') && (left' <= cutoff || b'.open == [])
    decreases |b.open|, if left > cutoff then 1 else 0
  {
    if left > cutoff && b.open != [] {
      HeadHasNoDust(cutoff, b, f, left);
      SellHasNoDust(cutoff, MatchHead(cutoff, b, f, left), f, left - MinReal(b.open[0].remainingQty, left));
    }
  }

  /** The cutoff, exactly: a lot is kept open only with more than the cutoff, and a trade is made only for more, or for
      a whole lot that was bought with less; a sell ends with at most the cutoff left, or with no lot left. */
  lemma {:induction false} NothingIsDust(cutoff: real, fills: seq<Fill>)
    requires cutoff >= 0.0
    ensures NoDust(cutoff, Run(cutoff, fills))
    ensures fills != [] && fills[|fills| - 1].side == Sell ==>
      var b := Run(cutoff, fills);
      b.leftovers != [] && (b.leftovers[|b.leftovers| - 1].qty <= cutoff || b.open == [])
  {
    if fills != [] {
      var front := fills[..|fills| - 1];
      var last := fills[|fills| - 1];
      NothingIsDust(cutoff, front);
      if last.side == Sell {
        SellHasNoDust(cutoff, Run(cutoff, front), last, last.quantity);
      }
    }
  }
}
