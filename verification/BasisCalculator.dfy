/**
 AMM and order-book arbitrage (src/arbitrage/basis-calculator.ts): the constant-product swap formulas in both
 directions and the search for the better of two trades.
 */
module BasisCalculator {
  import opened Wrappers
  import opened Arithmetic

  datatype OrderbookLevel = OrderbookLevel(price: real, size: real)

  datatype NormalizedOrderbook =
    NormalizedOrderbook(bids: seq<OrderbookLevel>, asks: seq<OrderbookLevel>, timestamp: int, feeTier: real)

  datatype AMMPool = AMMPool(reserveBase: real, reserveQuote: real, feeTier: real, timestamp: int)

  datatype Direction = CexToDex | DexToCex

  // A JavaScript number: a division by zero gives an infinity, or NaN for zero by zero.
  datatype Num = Finite(value: real) | Infinite(positive: bool) | NaN

  datatype ArbitrageOpportunity = ArbitrageOpportunity(
    direction: Direction, size: real, grossProfit: Num, netProfit: Num, executionPriceCex: real,
    executionPriceDex: Num, gasCostUSD: real, timestamp: int)

  function Over(n: real, d: real): Num {
    if d != 0.0 then Finite(n / d) else if n == 0.0 then NaN else Infinite(n > 0.0)
  }

  function NumOver(n: Num, d: real): Num {
    match n
    case Finite(x) => Over(x, d)
    case Infinite(positive) => Infinite(positive == (d >= 0.0))
    case NaN => NaN
  }

  function Plus(n: Num, x: real): Num {
    if n.Finite? then Finite(n.value + x) else n
  }

  function Negated(n: Num): Num {
    match n
    case Finite(x) => Finite(-x)
    case Infinite(positive) => Infinite(!positive)
    case NaN => NaN
  }

  // Comparisons with NaN are false.
  predicate AtLeast(n: Num, x: real) {
    (n.Finite? && n.value >= x) || n == Infinite(true)
  }

  predicate Greater(n: Num, m: Num) {
    match n
    case Finite(x) => (m.Finite? && x > m.value) || m == Infinite(false)
    case Infinite(positive) => positive && (m.Finite? || m == Infinite(false))
    case NaN => false
  }

  // The reserve a swap pays into and the one it takes from.
  function ReserveIn(pool: AMMPool, isBaseToQuote: bool): real {
    if isBaseToQuote then pool.reserveBase else pool.reserveQuote
  }

  function ReserveOut(pool: AMMPool, isBaseToQuote: bool): real {
    if isBaseToQuote then pool.reserveQuote else pool.reserveBase
  }

  // What w units, already net of the fee, take out of reserves i (paid into) and o (taken from).
  function Payout(i: real, o: real, w: real): real
    requires i + w != 0.0
  {
    w * o / (i + w)
  }

  // What has to be paid in, of which the share k is swapped, to take y out.
  function Price(i: real, o: real, k: real, y: real): real
    requires (o - y) * k != 0.0
  {
    y * i / ((o - y) * k)
  }

  // What a pool that swaps the share k of an input pays out of o for x units paid into i, and what it asks
  // into i for y units out of o; it cannot pay out all it has.
  function PaidOut(i: real, o: real, k: real, x: real): Num {
    var amountInWithFee := x * k;
    Over(amountInWithFee * o, i + amountInWithFee)
  }

  function AskedFor(i: real, o: real, k: real, y: real): Option<Num> {
    if y >= o then None else Some(Over(y * i, (o - y) * k))
  }

  function CalculateAmmOutput(pool: AMMPool, amountIn: real, isBaseToQuote: bool): Num {
    if isBaseToQuote then PaidOut(pool.reserveBase, pool.reserveQuote, 1.0 - pool.feeTier, amountIn)
    else PaidOut(pool.reserveQuote, pool.reserveBase, 1.0 - pool.feeTier, amountIn)
  }

  function CalculateAmmInput(pool: AMMPool, amountOut: real, isQuoteForBase: bool): Option<Num> {
    if isQuoteForBase then AskedFor(pool.reserveQuote, pool.reserveBase, 1.0 - pool.feeTier, amountOut)
    else AskedFor(pool.reserveBase, pool.reserveQuote, 1.0 - pool.feeTier, amountOut)
  }

  // A pool with liquidity on both sides and a fee below 100 per cent.
  ghost predicate Liquid(pool: AMMPool) {
    pool.reserveBase > 0.0 && pool.reserveQuote > 0.0 && 0.0 <= pool.feeTier < 1.0
  }

  // ----- arithmetic of quotients

  lemma ProductPositive(x: real, y: real)
    requires x > 0.0 && y > 0.0
    ensures x * y > 0.0
  {
  }

  lemma QuotientAtMost(n: real, d: real, q: real)
    requires d > 0.0
    ensures n <= q * d <==> n / d <= q
  {
    var r := n / d;
    assert r * d == n;
    assert (q - r) * d == q * d - n;
    assert q < r ==> (q - r) * d < 0.0;
    assert q >= r ==> (q - r) * d >= 0.0;
  }

  // ----- the swap formulas

  lemma PayoutEquations(i: real, o: real, w: real)
    requires i > 0.0 && o > 0.0 && w >= 0.0
    ensures Payout(i, o, w) * (i + w) == w * o
    ensures (o - Payout(i, o, w)) * (i + w) == o * i
    ensures 0.0 <= Payout(i, o, w) < o
  {
    var d := i + w;
    var out := w * o / d;
    assert out * d == w * o;
    assert (o - out) * d == o * d - w * o;
    assert o * d == o * i + o * w;
    ProductPositive(o, i);
    ProductNonNegative(w, o);
    assert o - out <= 0.0 ==> (o - out) * d <= 0.0;
    assert out < 0.0 ==> out * d < 0.0;
  }

  // What is asked for the payout of x is x.
  lemma PriceOfPayout(i: real, o: real, k: real, x: real)
    requires i > 0.0 && o > 0.0 && 0.0 < k <= 1.0 && x >= 0.0
    ensures x * k >= 0.0
    ensures Payout(i, o, x * k) < o && (o - Payout(i, o, x * k)) * k > 0.0
    ensures Price(i, o, k, Payout(i, o, x * k)) == x
  {
    ProductNonNegative(x, k);
    PayoutEquations(i, o, x * k);
    var out := Payout(i, o, x * k);
    ProductPositive(o - out, k);
    PriceFromEquations(i, o, k, x, out, i + x * k);
  }

  lemma PriceFromEquations(i: real, o: real, k: real, x: real, out: real, d: real)
    requires d > 0.0 && k > 0.0 && out < o
    requires out * d == x * k * o && (o - out) * d == o * i
    ensures (o - out) * k > 0.0 && Price(i, o, k, out) == x
  {
    var rest := (o - out) * k;
    ProductPositive(o - out, k);
    Rearranged(i, o, k, x, out, d);
  }

  lemma Rearranged(i: real, o: real, k: real, x: real, out: real, d: real)
    requires out * d == x * k * o && (o - out) * d == o * i
    ensures (x * ((o - out) * k)) * d == (out * i) * d
  {
    assert (x * k) * (o * i) == (1.0 * i) * (x * k * o);
    assert (1.0 * (out * i)) * d == (out * i) * d;
  }

  // What is paid out for the price of y is y.
  lemma PayoutOfPrice(i: real, o: real, k: real, y: real)
    requires i > 0.0 && o > 0.0 && 0.0 < k <= 1.0 && 0.0 <= y < o
    ensures (o - y) * k > 0.0
    ensures Price(i, o, k, y) >= 0.0 && Price(i, o, k, y) * k >= 0.0
    ensures Payout(i, o, Price(i, o, k, y) * k) == y
  {
    ProductPositive(o - y, k);
    ProductNonNegative(y, i);
    PriceEquation(y * i, (o - y) * k, Price(i, o, k, y));
    ProductNonNegative(Price(i, o, k, y), k);
  }

  lemma PriceEquation(n: real, d: real, x: real)
    requires d > 0.0 && n >= 0.0 && x == n / d
    ensures x * d == n && x >= 0.0
  {
    assert x < 0.0 ==> x * d < 0.0;
  }

  /** A swap of x never empties the side it takes from and never lowers the product of the reserves: the part of the
      input that is not swapped stays in the pool. */
  lemma SwapKeepsProduct(i: real, o: real, k: real, x: real)
    requires i > 0.0 && o > 0.0 && 0.0 < k <= 1.0 && x >= 0.0
    ensures x * k >= 0.0 && 0.0 <= Payout(i, o, x * k) < o
    ensures i * o <= (i + x) * (o - Payout(i, o, x * k))
  {
    ProductNonNegative(x, k);
    PayoutEquations(i, o, x * k);
    ProductNonNegative(x, 1.0 - k);
    assert x - x * k == x * (1.0 - k);
  }

  /** Swapping there and back never gains: out of the reserves the first swap leaves, its payout buys back at most what
      went in. */
  lemma SwapBackNeverGains(i: real, o: real, k: real, x: real)
    requires i > 0.0 && o > 0.0 && 0.0 < k <= 1.0 && x >= 0.0
    ensures x * k >= 0.0 && 0.0 <= Payout(i, o, x * k) < o
    ensures var out := Payout(i, o, x * k);
      out * k >= 0.0 && Payout(o - out, i + x, out * k) <= x
  {
    SwapKeepsProduct(i, o, k, x);
  }

  // With liquidity the two calculations are the finite quotients.
  lemma PaidOutIsPayout(i: real, o: real, k: real, x: real)
    requires i > 0.0 && x * k >= 0.0
    ensures PaidOut(i, o, k, x) == Finite(Payout(i, o, x * k))
  {
  }

  lemma AskedForPaidOut(i: real, o: real, k: real, x: real)
    requires i > 0.0 && o > 0.0 && 0.0 < k <= 1.0 && x >= 0.0
    ensures var out := PaidOut(i, o, k, x);
      out.Finite? && AskedFor(i, o, k, out.value) == Some(Finite(x))
  {
    PriceOfPayout(i, o, k, x);
    PaidOutIsPayout(i, o, k, x);
  }

  lemma PaidOutForAsked(i: real, o: real, k: real, y: real)
    requires i > 0.0 && o > 0.0 && 0.0 < k <= 1.0 && 0.0 <= y < o
    ensures var quote := AskedFor(i, o, k, y);
      && quote.Some? && quote.value.Finite? && quote.value.value >= 0.0
      && PaidOut(i, o, k, quote.value.value) == Finite(y)
  {
    PayoutOfPrice(i, o, k, y);
    PaidOutIsPayout(i, o, k, Price(i, o, k, y));
  }

  lemma PaidOutKeepsProduct(i: real, o: real, k: real, x: real)
    requires i > 0.0 && o > 0.0 && 0.0 < k <= 1.0 && x >= 0.0
    ensures var out := PaidOut(i, o, k, x);
      out.Finite? && 0.0 <= out.value < o && (o - out.value) * (i + x * k) == o * i
  {
    ProductNonNegative(x, k);
    PayoutEquations(i, o, x * k);
    PaidOutIsPayout(i, o, k, x);
  }

  /** Constant product: with the fee taken off the input first, a swap of base for quote leaves the product of the
      reserves as it was, ... */
  lemma BaseToQuoteKeepsProduct(pool: AMMPool, amountIn: real)
    requires Liquid(pool) && amountIn >= 0.0
    ensures var out := CalculateAmmOutput(pool, amountIn, true);
      && out.Finite? && 0.0 <= out.value < pool.reserveQuote
      && (pool.reserveQuote - out.value) * (pool.reserveBase + amountIn * (1.0 - pool.feeTier))
         == pool.reserveQuote * pool.reserveBase
  {
    PaidOutKeepsProduct(pool.reserveBase, pool.reserveQuote, 1.0 - pool.feeTier, amountIn);
  }

  /** ... and so does a swap of quote for base. */
  lemma QuoteToBaseKeepsProduct(pool: AMMPool, amountIn: real)
    requires Liquid(pool) && amountIn >= 0.0
    ensures var out := CalculateAmmOutput(pool, amountIn, false);
      && out.Finite? && 0.0 <= out.value < pool.reserveBase
      && (pool.reserveBase - out.value) * (pool.reserveQuote + amountIn * (1.0 - pool.feeTier))
         == pool.reserveBase * pool.reserveQuote
  {
    PaidOutKeepsProduct(pool.reserveQuote, pool.reserveBase, 1.0 - pool.feeTier, amountIn);
  }

  /** Output then input: what one has to pay for the output of a swap is what one paid. */
  lemma InputInvertsOutput(pool: AMMPool, amountIn: real, isBaseToQuote: bool)
    requires Liquid(pool) && amountIn >= 0.0
    ensures var out := CalculateAmmOutput(pool, amountIn, isBaseToQuote);
      out.Finite? && CalculateAmmInput(pool, out.value, !isBaseToQuote) == Some(Finite(amountIn))
  {
    AskedForPaidOut(ReserveIn(pool, isBaseToQuote), ReserveOut(pool, isBaseToQuote), 1.0 - pool.feeTier, amountIn);
  }

  /** Input then output: a pool asks for an input exactly for the amounts it can pay, and that input buys the amount. */
  lemma OutputInvertsInput(pool: AMMPool, amountOut: real, isBaseToQuote: bool)
    requires Liquid(pool) && amountOut >= 0.0
    ensures var quote := CalculateAmmInput(pool, amountOut, !isBaseToQuote);
      && (quote.Some? <==> amountOut < ReserveOut(pool, isBaseToQuote))
      && (quote.Some? ==>
            && quote.value.Finite? && quote.value.value >= 0.0
            && CalculateAmmOutput(pool, quote.value.value, isBaseToQuote) == Finite(amountOut))
  {
    if amountOut < ReserveOut(pool, isBaseToQuote) {
      PaidOutForAsked(ReserveIn(pool, isBaseToQuote), ReserveOut(pool, isBaseToQuote), 1.0 - pool.feeTier, amountOut);
    }
  }

  // ----- the two trades

  function BuyCost(price: real, size: real, fee: real): real {
    price * size * (1.0 + fee)
  }

  function SellRevenue(price: real, size: real, fee: real): real {
    price * size * (1.0 - fee)
  }

  // On the CEX the fee comes on top of what is paid and off what is received.
  lemma CexFigures(price: real, size: real, fee: real)
    ensures BuyCost(price, size, fee) == price * size + price * size * fee
    ensures SellRevenue(price, size, fee) == price * size - price * size * fee
  {
  }

  function Opportunity(direction: Direction, size: real, profit: Num, gas: real, cexPrice: real, dexQuote: Num,
                       now: int)
    : ArbitrageOpportunity
  {
    ArbitrageOpportunity(direction, size, Plus(profit, gas), profit, cexPrice, NumOver(dexQuote, size), gas, now)
  }

  // Buy on the CEX, sell to the pool. None when the best ask is missing or too small.
  function CexToDexTrade(book: NormalizedOrderbook, pool: AMMPool, gas: real, size: real, now: int)
    : Option<ArbitrageOpportunity>
  {
    if |book.asks| > 0 && book.asks[0].size >= size then
      var received := CalculateAmmOutput(pool, size, true);
      var profit := Plus(received, -BuyCost(book.asks[0].price, size, book.feeTier) - gas);
      Some(Opportunity(CexToDex, size, profit, gas, book.asks[0].price, received, now))
    else None
  }

  // Buy from the pool, sell on the CEX. None when the best bid is missing or too small, or the pool cannot deliver.
  function DexToCexTrade(book: NormalizedOrderbook, pool: AMMPool, gas: real, size: real, now: int)
    : Option<ArbitrageOpportunity>
  {
    if |book.bids| > 0 && book.bids[0].size >= size then
      var cost := CalculateAmmInput(pool, size, true);
      if cost.None? then None
      else
        var profit := Plus(Negated(cost.value), SellRevenue(book.bids[0].price, size, book.feeTier) - gas);
        Some(Opportunity(DexToCex, size, profit, gas, book.bids[0].price, cost.value, now))
    else None
  }

  predicate Qualifies(trade: Option<ArbitrageOpportunity>, minProfit: real) {
    trade.Some? && AtLeast(trade.value.netProfit, minProfit)
  }

  // The best of two trades: one of them that qualifies, with no less profit than the other if that
  // qualifies too, and the first on a tie.
  ghost predicate BestOf(best: Option<ArbitrageOpportunity>, there: Option<ArbitrageOpportunity>,
                         back: Option<ArbitrageOpportunity>, minProfit: real) {
    && (best.Some? <==> Qualifies(there, minProfit) || Qualifies(back, minProfit))
    && (best.Some? ==> Qualifies(best, minProfit) && (best == there || best == back))
    && (Qualifies(there, minProfit) ==> !Greater(there.value.netProfit, best.value.netProfit))
    && (Qualifies(back, minProfit) ==> !Greater(back.value.netProfit, best.value.netProfit))
    && (Qualifies(there, minProfit) && !(back.Some? && Greater(back.value.netProfit, there.value.netProfit)) ==>
          best == there)
  }

  // The average price of a quote for a size.
  ghost predicate PricedAt(price: Num, quote: Num, size: real) {
    quote.Finite? && size != 0.0 ==> price.Finite? && price.value * size == quote.value
  }

  // What a trade on one side would bring, read off the book and the pool.
  ghost predicate BuysOnCex(book: NormalizedOrderbook, pool: AMMPool, gas: real, size: real, profit: Num) {
    && |book.asks| > 0 && book.asks[0].size >= size
    && profit == Plus(CalculateAmmOutput(pool, size, true), -BuyCost(book.asks[0].price, size, book.feeTier) - gas)
  }

  ghost predicate SellsOnCex(book: NormalizedOrderbook, pool: AMMPool, gas: real, size: real, profit: Num) {
    && |book.bids| > 0 && book.bids[0].size >= size
    && var asked := CalculateAmmInput(pool, size, true);
    && asked.Some?
    && profit == Plus(Negated(asked.value), SellRevenue(book.bids[0].price, size, book.feeTier) - gas)
  }

  // An opportunity tells the trade it stands for: its direction, the price on the CEX side, the average price on the
  // pool's side, and the profit before and after gas.
  ghost predicate TellsTrade(o: ArbitrageOpportunity, book: NormalizedOrderbook, pool: AMMPool, gas: real, size: real,
                             now: int)
  {
    && o.size == size && o.gasCostUSD == gas && o.timestamp == now
    && (o.netProfit.Finite? ==> o.grossProfit == Finite(o.netProfit.value + gas))
    && (o.direction == CexToDex ==>
          && BuysOnCex(book, pool, gas, size, o.netProfit) && o.executionPriceCex == book.asks[0].price
          && PricedAt(o.executionPriceDex, CalculateAmmOutput(pool, size, true), size))
    && (o.direction == DexToCex ==>
          && SellsOnCex(book, pool, gas, size, o.netProfit) && o.executionPriceCex == book.bids[0].price
          && PricedAt(o.executionPriceDex, CalculateAmmInput(pool, size, true).value, size))
  }

  lemma AveragePrice(quote: Num, size: real)
    ensures PricedAt(NumOver(quote, size), quote, size)
  {
  }

  lemma BackTells(book: NormalizedOrderbook, pool: AMMPool, gas: real, size: real, now: int)
    ensures var back := DexToCexTrade(book, pool, gas, size, now);
      && (back.Some? <==> |book.bids| > 0 && book.bids[0].size >= size && CalculateAmmInput(pool, size, true).Some?)
      && (back.Some? ==> back.value.direction == DexToCex && TellsTrade(back.value, book, pool, gas, size, now))
  {
    var asked := CalculateAmmInput(pool, size, true);
    if asked.Some? {
      AveragePrice(asked.value, size);
    }
  }

  // The comparisons of the search, over the two trades it evaluates.
  method PickBest(there: Option<ArbitrageOpportunity>, back: Option<ArbitrageOpportunity>, minProfitUSD: real)
    returns (best: Option<ArbitrageOpportunity>)
    ensures BestOf(best, there, back, minProfitUSD)
  {
    best := None;
    var maxProfit := Infinite(false);
    if there.Some? {
      var profit := there.value.netProfit;
      if AtLeast(profit, minProfitUSD) && Greater(profit, maxProfit) {
        maxProfit := profit;
        best := there;
      }
    }
    if back.Some? {
      var profit := back.value.netProfit;
      if AtLeast(profit, minProfitUSD) && Greater(profit, maxProfit) {
        maxProfit := profit;
        best := back;
      }
    }
  }

  /** The search finds an opportunity exactly when a trade reaches the minimum, and then the more profitable one, the
      first on a tie. */
  method FindBestOpportunity(book: NormalizedOrderbook, pool: AMMPool, gasCostUSD: real, minProfitUSD: real,
                             tradeSizeNative: real, now: int)
    returns (best: Option<ArbitrageOpportunity>)
    ensures BestOf(best, CexToDexTrade(book, pool, gasCostUSD, tradeSizeNative, now),
                   DexToCexTrade(book, pool, gasCostUSD, tradeSizeNative, now), minProfitUSD)
    ensures best.Some? ==>
      && TellsTrade(best.value, book, pool, gasCostUSD, tradeSizeNative, now)
      && AtLeast(best.value.netProfit, minProfitUSD)
    ensures forall profit ::
      && (BuysOnCex(book, pool, gasCostUSD, tradeSizeNative, profit)
          || SellsOnCex(book, pool, gasCostUSD, tradeSizeNative, profit))
      && AtLeast(profit, minProfitUSD) ==>
      best.Some? && !Greater(profit, best.value.netProfit)
  {
    BackTells(book, pool, gasCostUSD, tradeSizeNative, now);
    var there := CexToDexTrade(book, pool, gasCostUSD, tradeSizeNative, now);
    var back := DexToCexTrade(book, pool, gasCostUSD, tradeSizeNative, now);
    best := PickBest(there, back, minProfitUSD);
  }

  // The pool pays at most its spot price ...
  lemma PayoutBelowSpot(i: real, o: real, w: real, s: real, spot: real)
    requires i > 0.0 && o > 0.0 && 0.0 <= w <= s && spot >= 0.0 && spot * i == s * o
    ensures Payout(i, o, w) <= spot
  {
    var d := i + w;
    ProductNonNegative(spot, w);
    ProductNonNegative(s - w, o);
    assert spot * d == s * o + spot * w;
    assert (s - w) * o == s * o - w * o;
    QuotientAtMost(w * o, d, spot);
  }

  // ... and asks at least its spot price.
  lemma PriceAboveSpot(i: real, o: real, k: real, s: real, spot: real)
    requires i > 0.0 && 0.0 < k <= 1.0 && 0.0 <= s < i && spot >= 0.0 && spot * i == s * o
    ensures (i - s) * k > 0.0
    ensures Price(o, i, k, s) >= spot
  {
    var e := (i - s) * k;
    ProductPositive(i - s, k);
    ProductNonNegative(i - s, 1.0 - k);
    assert e == (i - s) - (i - s) * (1.0 - k);
    ProductNonNegative(spot, i - e);
    assert spot * e == spot * i - spot * (i - e);
    AtLeastQuotient(s * o, e, spot);
  }

  lemma AtLeastQuotient(n: real, d: real, q: real)
    requires d > 0.0 && q * d <= n
    ensures q <= n / d
  {
    var r := n / d;
    assert r * d == n;
    assert (r - q) * d == n - q * d;
    assert r < q ==> (r - q) * d < 0.0;
  }

  // So a pool never pays more for an amount than it asks for it.
  lemma SpreadOf(i: real, o: real, k: real, s: real)
    requires i > 0.0 && o > 0.0 && 0.0 < k <= 1.0 && 0.0 <= s
    ensures var out, ask := PaidOut(i, o, k, s), AskedFor(o, i, k, s);
      && out.Finite?
      && (ask.Some? ==> ask.value.Finite? && out.value <= ask.value.value)
  {
    var spot := s * o / i;
    ProductNonNegative(s, k);
    ProductMonotone(k, 1.0, s);
    PaidOutIsPayout(i, o, k, s);
    PayoutBelowSpot(i, o, s * k, s, spot);
    if s < i {
      PriceAboveSpot(i, o, k, s, spot);
    }
  }

  lemma PoolSpread(pool: AMMPool, size: real)
    requires Liquid(pool) && size >= 0.0
    ensures var out, ask := CalculateAmmOutput(pool, size, true), CalculateAmmInput(pool, size, true);
      && out.Finite?
      && (ask.Some? ==> ask.value.Finite? && out.value <= ask.value.value)
  {
    SpreadOf(pool.reserveBase, pool.reserveQuote, 1.0 - pool.feeTier, size);
  }

  // Selling at the bid never brings more than buying at the ask costs.
  lemma BookSpread(bid: real, ask: real, s: real, fee: real)
    requires bid <= ask && 0.0 <= ask && s > 0.0 && 0.0 <= fee < 1.0
    ensures SellRevenue(bid, s, fee) <= BuyCost(ask, s, fee)
  {
    ProductNonNegative(ask - bid, s);
    ProductNonNegative((ask - bid) * s, 1.0 - fee);
    ProductNonNegative(ask, s);
    ProductNonNegative(ask * s, fee);
    assert ask * s * (1.0 + fee) - bid * s * (1.0 - fee) == (ask - bid) * s * (1.0 - fee) + 2.0 * (ask * s * fee);
  }

  // The profits are finite numbers, and each is its formula.
  lemma FiniteProfits(book: NormalizedOrderbook, pool: AMMPool, gas: real, size: real, now: int)
    requires Liquid(pool) && size >= 0.0
    ensures var there, out := CexToDexTrade(book, pool, gas, size, now), CalculateAmmOutput(pool, size, true);
      there.Some? ==>
        && |book.asks| > 0 && out.Finite?
        && there.value.netProfit == Finite(out.value - BuyCost(book.asks[0].price, size, book.feeTier) - gas)
    ensures var back, ask := DexToCexTrade(book, pool, gas, size, now), CalculateAmmInput(pool, size, true);
      back.Some? ==>
        && |book.bids| > 0 && ask.Some? && ask.value.Finite?
        && back.value.netProfit == Finite(SellRevenue(book.bids[0].price, size, book.feeTier) - ask.value.value - gas)
  {
    PoolSpread(pool, size);
  }

  /** The two trades never both pay: their profits add up to no more than minus twice the gas. */
  lemma ProfitsNeverAddUp(book: NormalizedOrderbook, pool: AMMPool, gas: real, size: real, now: int)
    requires Liquid(pool) && 0.0 <= book.feeTier < 1.0 && size > 0.0
    requires |book.bids| > 0 && |book.asks| > 0
    requires book.bids[0].price <= book.asks[0].price && 0.0 <= book.asks[0].price
    ensures var there, back := CexToDexTrade(book, pool, gas, size, now), DexToCexTrade(book, pool, gas, size, now);
      there.Some? && back.Some? ==>
        && there.value.netProfit.Finite? && back.value.netProfit.Finite?
        && there.value.netProfit.value + back.value.netProfit.value <= -2.0 * gas
  {
    FiniteProfits(book, pool, gas, size, now);
    PoolSpread(pool, size);
    BookSpread(book.bids[0].price, book.asks[0].price, size, book.feeTier);
  }

  lemma NegativePriceRevenue(price: real, size: real, fee: real)
    requires price < 0.0 && size > 0.0 && 0.0 <= fee < 1.0
    ensures SellRevenue(price, size, fee) <= 0.0
  {
    ProductNonNegative(-price, size);
    ProductNonNegative(-price * size, 1.0 - fee);
    assert price * size * (1.0 - fee) == -(-price * size * (1.0 - fee));
  }

  // A negative bid makes selling on the CEX a loss.
  lemma NegativeBidLoses(book: NormalizedOrderbook, pool: AMMPool, gas: real, size: real, now: int)
    requires Liquid(pool) && 0.0 <= book.feeTier < 1.0 && size > 0.0 && gas >= 0.0
    requires DexToCexTrade(book, pool, gas, size, now).Some? && book.bids[0].price < 0.0
    ensures var profit := DexToCexTrade(book, pool, gas, size, now).value.netProfit;
      profit.Finite? && profit.value <= 0.0
  {
    FiniteProfits(book, pool, gas, size, now);
    OutputInvertsInput(pool, size, false);
    NegativePriceRevenue(book.bids[0].price, size, book.feeTier);
  }

  /** One-sided arbitrage: on an order book that is not crossed the two branches of the search never both qualify,
      so the comparison of their profits never decides anything. */
  lemma AtMostOneBranchQualifies(book: NormalizedOrderbook, pool: AMMPool, gas: real, minProfit: real, size: real,
                                 now: int)
    requires Liquid(pool) && 0.0 <= book.feeTier < 1.0 && size > 0.0 && gas >= 0.0 && minProfit > 0.0
    requires |book.bids| > 0 && |book.asks| > 0 ==> book.bids[0].price <= book.asks[0].price
    ensures !(Qualifies(CexToDexTrade(book, pool, gas, size, now), minProfit)
              && Qualifies(DexToCexTrade(book, pool, gas, size, now), minProfit))
  {
    if CexToDexTrade(book, pool, gas, size, now).Some? && DexToCexTrade(book, pool, gas, size, now).Some? {
      if book.asks[0].price >= 0.0 {
        ProfitsNeverAddUp(book, pool, gas, size, now);
      } else {
        NegativeBidLoses(book, pool, gas, size, now);
      }
    }
  }
}
