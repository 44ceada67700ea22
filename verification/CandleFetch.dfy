/**
 The historical candle fetch (src/forest/backtest/data-fetcher.ts): pages of at most a thousand candles, walked
 backwards from the end of the range. The exchange is a strictly ascending sequence of candles that
 answers a request with the latest page up to the cursor.
 */
module CandleFetch {
  import opened Wrappers
  import opened Sorting

  datatype Candle = Candle(timestamp: int, open: real, high: real, low: real, close: real, volume: real)

  const KLINE_LIMIT: nat := 1000

  predicate Earlier(a: Candle, b: Candle) {
    a.timestamp < b.timestamp
  }

  predicate OtherTime(a: Candle, b: Candle) {
    a.timestamp != b.timestamp
  }

  // The number of candles at or before t in an ascending sequence.
  function CountUpTo(server: seq<Candle>, t: int): (n: nat)
    ensures n <= |server|
  {
    if server == [] then 0
    else if server[|server| - 1].timestamp <= t then |server|
    else CountUpTo(server[..|server| - 1], t)
  }

  // Where the page that ends before position n begins.
  function PageStart(n: nat): nat {
    if n <= KLINE_LIMIT then 0 else n - KLINE_LIMIT
  }

  // The exchange's answer: the latest candles at or before the cursor, oldest first.
  function Page(server: seq<Candle>, cursorEnd: int): seq<Candle> {
    var n := CountUpTo(server, cursorEnd);
    server[PageStart(n)..n]
  }

  // The filter over [startMs, endMs], which is also the range query the fetch stands for.
  function InRange(candles: seq<Candle>, startMs: int, endMs: int): seq<Candle> {
    if candles == [] then []
    else
      var rest := InRange(candles[..|candles| - 1], startMs, endMs);
      var last := candles[|candles| - 1];
      if startMs <= last.timestamp <= endMs then rest + [last] else rest
  }

  ghost predicate Has(server: seq<Candle>, t: int) {
    exists c :: c in server && c.timestamp == t
  }

  // The candle at startMs is lost: the range is that single moment, or a page begins one
  // millisecond after it.
  ghost predicate LosesFirst(server: seq<Candle>, startMs: int, endMs: int) {
    && Has(server, startMs)
    && (startMs == endMs
        || (startMs < endMs && Has(server, startMs + 1)
            && |InRange(server, startMs + 1, endMs)| % 1000 == 0))
  }

  // ----- positions and times

  lemma {:induction false} CountSplits(server: seq<Candle>, t: int)
    requires StrictlyOrdered(Earlier, server)
    ensures forall k :: 0 <= k < |server| ==> (k < CountUpTo(server, t) <==> server[k].timestamp <= t)
  {
    if server != [] {
      var front := server[..|server| - 1];
      CountSplits(front, t);
      assert forall k :: 0 <= k < |front| ==> Earlier(server[k], server[|server| - 1]);
    }
  }

  lemma CountAt(server: seq<Candle>, t: int, n: nat)
    requires StrictlyOrdered(Earlier, server) && n <= |server|
    requires n > 0 ==> server[n - 1].timestamp <= t
    requires n < |server| ==> server[n].timestamp > t
    ensures CountUpTo(server, t) == n
  {
    CountSplits(server, t);
  }

  lemma TimesGrow(server: seq<Candle>, i: nat, j: nat)
    requires StrictlyOrdered(Earlier, server) && i < j < |server|
    ensures server[i].timestamp < server[j].timestamp
  {
    assert Earlier(server[i], server[j]);
  }

  // A page is the latest candles at or before the cursor, oldest first, a thousand if there are that many.
  lemma PageIsLatest(server: seq<Candle>, cursorEnd: int)
    requires StrictlyOrdered(Earlier, server)
    ensures var page := Page(server, cursorEnd);
      && StrictlyOrdered(Earlier, page)
      && (forall c :: c in page ==> c in server && c.timestamp <= cursorEnd)
      && (forall c, d :: c in server && c.timestamp <= cursorEnd && c !in page && d in page ==> Earlier(c, d))
      && (|page| == 1000 || (|page| < 1000 && forall c :: c in server && c.timestamp <= cursorEnd ==> c in page))
  {
    CountSplits(server, cursorEnd);
    var n := CountUpTo(server, cursorEnd);
    var a, page := PageStart(n), Page(server, cursorEnd);
    forall k | a <= k < n ensures server[k] in page {
      assert page[k - a] == server[k];
    }
    forall c, d | c in server && c.timestamp <= cursorEnd && c !in page && d in page ensures Earlier(c, d) {
      var k :| 0 <= k < |server| && server[k] == c;
      var j :| 0 <= j < |page| && page[j] == d;
      TimesGrow(server, k, a + j);
    }
  }

  lemma {:induction false} InRangeConcat(s: seq<Candle>, t: seq<Candle>, startMs: int, endMs: int)
    ensures InRange(s + t, startMs, endMs) == InRange(s, startMs, endMs) + InRange(t, startMs, endMs)
    decreases |t|
  {
    if t == [] {
      assert s + t == s;
    } else {
      InRangeConcat(s, t[..|t| - 1], startMs, endMs);
      assert (s + t)[..|s + t| - 1] == s + t[..|t| - 1];
    }
  }

  lemma {:induction false} AllInRange(s: seq<Candle>, startMs: int, endMs: int)
    requires forall k :: 0 <= k < |s| ==> startMs <= s[k].timestamp <= endMs
    ensures InRange(s, startMs, endMs) == s
  {
    if s != [] {
      AllInRange(s[..|s| - 1], startMs, endMs);
    }
  }

  lemma {:induction false} NoneInRange(s: seq<Candle>, startMs: int, endMs: int)
    requires forall k :: 0 <= k < |s| ==> !(startMs <= s[k].timestamp <= endMs)
    ensures InRange(s, startMs, endMs) == []
  {
    if s != [] {
      NoneInRange(s[..|s| - 1], startMs, endMs);
    }
  }

  ghost predicate Inside(s: seq<Candle>, startMs: int, endMs: int) {
    forall k :: 0 <= k < |s| ==> startMs <= s[k].timestamp <= endMs
  }

  ghost predicate Outside(s: seq<Candle>, startMs: int, endMs: int) {
    forall k :: 0 <= k < |s| ==> !(startMs <= s[k].timestamp <= endMs)
  }

  lemma KeepsMiddle(s: seq<Candle>, t: seq<Candle>, u: seq<Candle>, startMs: int, endMs: int)
    requires Outside(s, startMs, endMs) && Inside(t, startMs, endMs) && Outside(u, startMs, endMs)
    ensures InRange(s + t + u, startMs, endMs) == t
  {
    InRangeConcat(s + t, u, startMs, endMs);
    InRangeConcat(s, t, startMs, endMs);
    NoneInRange(s, startMs, endMs);
    AllInRange(t, startMs, endMs);
    NoneInRange(u, startMs, endMs);
  }

  lemma ThreeSlices(s: seq<Candle>, lo: nat, from: nat, to: nat, n: nat)
    requires lo <= from <= to <= n <= |s|
    ensures s[lo..n] == s[lo..from] + s[from..to] + s[to..n]
  {
    assert s[lo..n] == s[lo..to] + s[to..n];
    assert s[lo..to] == s[lo..from] + s[from..to];
  }

  // Cut where the range begins and ends, a slice of the server is outside, inside, outside.
  lemma CutSlice(server: seq<Candle>, startMs: int, endMs: int, lo: nat, from: nat, to: nat, n: nat)
    requires StrictlyOrdered(Earlier, server) && lo <= from <= to <= n <= |server|
    requires from <= CountUpTo(server, startMs - 1) || from == lo
    requires CountUpTo(server, startMs - 1) <= from || from == to
    requires to <= CountUpTo(server, endMs) <= to || to == n <= CountUpTo(server, endMs)
    ensures Outside(server[lo..from], startMs, endMs)
    ensures Inside(server[from..to], startMs, endMs)
    ensures Outside(server[to..n], startMs, endMs)
  {
    CountSplits(server, startMs - 1);
    CountSplits(server, endMs);
  }

  // The filter keeps the part of a slice that lies in the range.
  lemma RangeOfPiece(server: seq<Candle>, startMs: int, endMs: int, lo: nat)
    requires StrictlyOrdered(Earlier, server) && lo <= CountUpTo(server, endMs)
    ensures var a, hi := CountUpTo(server, startMs - 1), CountUpTo(server, endMs);
      InRange(server[lo..hi], startMs, endMs)
      == if hi <= a then [] else if a < lo then server[lo..hi] else server[a..hi]
  {
    var a, hi := CountUpTo(server, startMs - 1), CountUpTo(server, endMs);
    var from := if a < lo then lo else if hi <= a then hi else a;
    CutSlice(server, startMs, endMs, lo, from, hi, hi);
    ThreeSlices(server, lo, from, hi, hi);
    KeepsMiddle(server[lo..from], server[from..hi], server[hi..hi], startMs, endMs);
  }

  lemma RangeIsSlice(server: seq<Candle>, startMs: int, endMs: int)
    requires StrictlyOrdered(Earlier, server)
    ensures var a, b := CountUpTo(server, startMs - 1), CountUpTo(server, endMs);
      InRange(server, startMs, endMs) == if a <= b then server[a..b] else []
  {
    var a, b := CountUpTo(server, startMs - 1), CountUpTo(server, endMs);
    var from := if b <= a then b else a;
    CutSlice(server, startMs, endMs, 0, from, b, |server|);
    ThreeSlices(server, 0, from, b, |server|);
    KeepsMiddle(server[0..from], server[from..b], server[b..|server|], startMs, endMs);
    assert server[0..|server|] == server;
  }

  lemma {:induction false} CountMonotone(server: seq<Candle>, t: int, u: int)
    requires t <= u
    ensures CountUpTo(server, t) <= CountUpTo(server, u)
  {
    if server != [] {
      CountMonotone(server[..|server| - 1], t, u);
    }
  }

  // A moment holds one candle or none, and its candle stands where the earlier ones end.
  lemma HasAt(server: seq<Candle>, t: int)
    requires StrictlyOrdered(Earlier, server)
    ensures var a, b := CountUpTo(server, t - 1), CountUpTo(server, t);
      (Has(server, t) <==> b == a + 1) && a <= b <= a + 1 && (b == a + 1 ==> server[a].timestamp == t)
  {
    CountSplits(server, t);
    CountSplits(server, t - 1);
    CountMonotone(server, t - 1, t);
    var a, b := CountUpTo(server, t - 1), CountUpTo(server, t);
    if Has(server, t) {
      var c :| c in server && c.timestamp == t;
      var k :| 0 <= k < |server| && server[k] == c;
      assert a <= k < b;
    }
    if a < b {
      assert server[a].timestamp == t && server[a] in server;
      if a + 1 < |server| {
        TimesGrow(server, a, a + 1);
        assert server[a + 1].timestamp > t;
      }
    }
  }

  // ----- the loop

  // No two candles of one time are kept, and `seen` holds the times of those kept.
  ghost predicate Deduped(all: seq<Candle>, seen: set<int>) {
    Pairwise(OtherTime, all) && seen == set c | c in all :: c.timestamp
  }

  // Every candle of the batch is kept, or one of the same time was kept before.
  ghost predicate Merged(batch: seq<Candle>, all: seq<Candle>, all': seq<Candle>, seen': set<int>) {
    && Deduped(all', seen')
    && (forall c :: c in all' ==> c in all || c in batch)
    && (forall c :: c in all ==> c in all')
    && (forall c :: c in batch ==> c.timestamp in seen')
  }

  // The pages down to position lo have been fetched.
  ghost predicate Fetched(server: seq<Candle>, all: seq<Candle>, seen: set<int>, lo: nat, hi: nat) {
    && lo <= hi <= |server|
    && (forall c :: c in all <==> c in server[lo..hi])
    && Deduped(all, seen)
  }

  // The inner loop: candles not seen before are kept.
  method AddBatch(batch: seq<Candle>, all: seq<Candle>, seen: set<int>)
    returns (all': seq<Candle>, seen': set<int>)
    requires Deduped(all, seen)
    ensures Merged(batch, all, all', seen')
  {
    all', seen' := all, seen;
    for i := 0 to |batch|
      invariant Deduped(all', seen')
      invariant forall c :: c in all' ==> c in all || c in batch
      invariant forall c :: c in all ==> c in all'
      invariant forall k :: 0 <= k < i ==> batch[k].timestamp in seen'
    {
      var c := batch[i];
      if c.timestamp !in seen' {
        forall k | 0 <= k < |all'| ensures OtherTime(all'[k], c) {
          assert all'[k] in all';
        }
        seen' := seen' + {c.timestamp};
        all' := all' + [c];
      }
    }
  }

  // A page joins what has been fetched.
  lemma PageJoins(server: seq<Candle>, all: seq<Candle>, all': seq<Candle>, seen: set<int>, seen': set<int>, lo: nat,
                  hi: nat)
    requires StrictlyOrdered(Earlier, server) && Fetched(server, all, seen, lo, hi)
    requires Merged(server[PageStart(lo)..lo], all, all', seen')
    ensures Fetched(server, all', seen', PageStart(lo), hi)
  {
    var lo' := PageStart(lo);
    assert server[lo'..hi] == server[lo'..lo] + server[lo..hi];
    forall c | c in server[lo'..hi] ensures c in all' {
      if c in server[lo'..lo] {
        var d :| d in all' && d.timestamp == c.timestamp;
        assert d in server[lo'..hi];
      }
    }
  }

  // Sorting what has been fetched gives back the slice of the server.
  lemma SortedIsSlice(server: seq<Candle>, all: seq<Candle>, seen: set<int>, lo: nat, hi: nat)
    requires StrictlyOrdered(Earlier, server) && Fetched(server, all, seen, lo, hi)
    ensures Sort(Earlier, all) == server[lo..hi]
  {
    var sorted := Sort(Earlier, all);
    SortOrdered(Earlier, all);
    SortPairwise(Earlier, OtherTime, all);
    SortMembers(Earlier, all);
    forall i, j | 0 <= i < j < |sorted| ensures Earlier(sorted[i], sorted[j]) {
      assert !Earlier(sorted[j], sorted[i]) && OtherTime(sorted[i], sorted[j]);
    }
    StrictlyOrderedUnique(Earlier, sorted, server[lo..hi]);
  }

  // The walk stands before position lo, with the cursor just before the oldest candle fetched, and
  // all pages so far were whole unless nothing is left.
  ghost predicate Walking(server: seq<Candle>, endMs: int, lo: nat, cursorEnd: int) {
    var hi := CountUpTo(server, endMs);
    && lo <= hi && CountUpTo(server, cursorEnd) == lo
    && (if lo == hi then cursorEnd == endMs else cursorEnd == server[lo].timestamp - 1)
    && (lo == 0 || (hi - lo) % KLINE_LIMIT == 0)
  }

  // Before the first candle of the range lies only its loss: the walk never goes below it.
  ghost predicate Above(server: seq<Candle>, startMs: int, endMs: int, lo: nat) {
    startMs < endMs && LosesFirst(server, startMs, endMs) ==> lo > CountUpTo(server, startMs - 1)
  }

  lemma LostPosition(server: seq<Candle>, startMs: int, endMs: int)
    requires StrictlyOrdered(Earlier, server) && startMs < endMs && LosesFirst(server, startMs, endMs)
    ensures var first, hi := CountUpTo(server, startMs - 1) + 1, CountUpTo(server, endMs);
      && first < hi && (hi - first) % KLINE_LIMIT == 0
      && server[first - 1].timestamp == startMs && server[first].timestamp == startMs + 1
  {
    HasAt(server, startMs);
    HasAt(server, startMs + 1);
    assert startMs + 1 - 1 == startMs;
    RangeIsSlice(server, startMs + 1, endMs);
    CountSplits(server, startMs - 1);
    CountSplits(server, startMs);
    CountSplits(server, startMs + 1);
    CountSplits(server, endMs);
  }

  // The next page begins before the present position, and its first candle is older than the cursor.
  lemma WalkOn(server: seq<Candle>, endMs: int, lo: nat, cursorEnd: int)
    requires StrictlyOrdered(Earlier, server) && Walking(server, endMs, lo, cursorEnd) && lo > 0
    ensures var lo' := PageStart(lo);
      Walking(server, endMs, lo', server[lo'].timestamp - 1) && server[lo'].timestamp - 1 < cursorEnd
  {
    var lo' := PageStart(lo);
    CountSplits(server, cursorEnd);
    if lo' > 0 {
      TimesGrow(server, lo' - 1, lo');
    }
    CountAt(server, server[lo'].timestamp - 1, lo');
  }

  // Positions whole pages below hi are whole pages apart.
  lemma WholePages(first: nat, lo: nat, hi: nat)
    requires first < lo <= hi && (hi - first) % KLINE_LIMIT == 0 && (hi - lo) % KLINE_LIMIT == 0
    ensures first <= PageStart(lo) && PageStart(lo) == lo - KLINE_LIMIT
  {
    assert (lo - first) % KLINE_LIMIT == 0;
  }

  // A page does not reach below the candle after the one that is lost.
  lemma StayAbove(server: seq<Candle>, startMs: int, endMs: int, lo: nat, cursorEnd: int)
    requires StrictlyOrdered(Earlier, server) && Walking(server, endMs, lo, cursorEnd)
    requires Above(server, startMs, endMs, lo) && cursorEnd > startMs && lo > 0
    ensures Above(server, startMs, endMs, PageStart(lo))
  {
    if startMs < endMs && LosesFirst(server, startMs, endMs) {
      LostPosition(server, startMs, endMs);
      CountSplits(server, cursorEnd);
      WholePages(CountUpTo(server, startMs - 1) + 1, lo, CountUpTo(server, endMs));
    }
  }

  // What the fetch returns: the range, or the range without its first candle.
  ghost function Delivered(server: seq<Candle>, startMs: int, endMs: int): seq<Candle> {
    var range := InRange(server, startMs, endMs);
    if LosesFirst(server, startMs, endMs) && range != [] then range[1..] else range
  }

  lemma SingleMoment(server: seq<Candle>, t: int)
    requires StrictlyOrdered(Earlier, server)
    ensures |InRange(server, t, t)| <= 1 && (Has(server, t) <==> InRange(server, t, t) != [])
  {
    HasAt(server, t);
    RangeIsSlice(server, t, t);
  }

  // The walk has stopped: before the start, or with nothing left.
  lemma StoppedDelivers(server: seq<Candle>, startMs: int, endMs: int, lo: nat, cursorEnd: int)
    requires StrictlyOrdered(Earlier, server) && Walking(server, endMs, lo, cursorEnd)
    requires Above(server, startMs, endMs, lo) && (cursorEnd <= startMs || lo == 0)
    requires startMs >= endMs ==> lo == CountUpTo(server, endMs)
    ensures InRange(server[lo..CountUpTo(server, endMs)], startMs, endMs) == Delivered(server, startMs, endMs)
  {
    var a, hi := CountUpTo(server, startMs - 1), CountUpTo(server, endMs);
    CountSplits(server, startMs - 1);
    CountSplits(server, endMs);
    CountSplits(server, cursorEnd);
    RangeOfPiece(server, startMs, endMs, lo);
    RangeIsSlice(server, startMs, endMs);
    if startMs > endMs {
      CountMonotone(server, endMs, startMs - 1);
    } else if startMs == endMs {
      SingleMoment(server, startMs);
      HasAt(server, startMs);
    } else {
      if LosesFirst(server, startMs, endMs) {
        LostPosition(server, startMs, endMs);
      } else {
        KeptStop(server, startMs, endMs, lo, cursorEnd);
      }
    }
  }

  lemma KeptStop(server: seq<Candle>, startMs: int, endMs: int, lo: nat, cursorEnd: int)
    requires StrictlyOrdered(Earlier, server) && Walking(server, endMs, lo, cursorEnd)
    requires cursorEnd <= startMs || lo == 0
    requires startMs < endMs && !LosesFirst(server, startMs, endMs)
    ensures lo <= CountUpTo(server, startMs - 1)
  {
    var a, hi := CountUpTo(server, startMs - 1), CountUpTo(server, endMs);
    CountSplits(server, startMs - 1);
    CountSplits(server, endMs);
    if lo > a {
      assert lo < hi && server[lo].timestamp - 1 <= startMs;
      assert Earlier(server[a], server[lo]);
      assert server[a] in server && server[lo] in server;
      assert Has(server, startMs) && Has(server, startMs + 1);
      HasAt(server, startMs);
      assert startMs + 1 - 1 == startMs;
      CountSplits(server, startMs);
      assert lo == a + 1;
      RangeIsSlice(server, startMs + 1, endMs);
      assert false;
    }
  }

  // How the cursor stands whenever the loop asks for the next page.
  ghost predicate AtPage(server: seq<Candle>, startMs: int, endMs: int, lo: nat, cursorEnd: int) {
    && Walking(server, endMs, lo, cursorEnd)
    && Above(server, startMs, endMs, lo)
    && cursorEnd <= endMs
    && (startMs >= endMs ==> lo == CountUpTo(server, endMs))
  }

  lemma FirstPage(server: seq<Candle>, startMs: int, endMs: int)
    requires StrictlyOrdered(Earlier, server)
    ensures AtPage(server, startMs, endMs, CountUpTo(server, endMs), endMs)
  {
    if startMs < endMs && LosesFirst(server, startMs, endMs) {
      LostPosition(server, startMs, endMs);
    }
  }

  lemma NextPage(server: seq<Candle>, startMs: int, endMs: int, lo: nat, cursorEnd: int)
    requires StrictlyOrdered(Earlier, server) && AtPage(server, startMs, endMs, lo, cursorEnd)
    requires cursorEnd > startMs && Page(server, cursorEnd) != []
    ensures var next := Page(server, cursorEnd)[0].timestamp - 1;
      next < cursorEnd && AtPage(server, startMs, endMs, PageStart(lo), next)
  {
    WalkOn(server, endMs, lo, cursorEnd);
    StayAbove(server, startMs, endMs, lo, cursorEnd);
  }

  lemma PagesDeliver(server: seq<Candle>, startMs: int, endMs: int, all: seq<Candle>, seen: set<int>, lo: nat,
                     cursorEnd: int)
    requires StrictlyOrdered(Earlier, server)
    requires Fetched(server, all, seen, lo, CountUpTo(server, endMs)) && AtPage(server, startMs, endMs, lo, cursorEnd)
    requires cursorEnd <= startMs || Page(server, cursorEnd) == []
    ensures InRange(Sort(Earlier, all), startMs, endMs) == Delivered(server, startMs, endMs)
  {
    SortedIsSlice(server, all, seen, lo, CountUpTo(server, endMs));
    StoppedDelivers(server, startMs, endMs, lo, cursorEnd);
  }

  // Merging a page extends what has been fetched down to where the page begins.
  method MergePage(ghost server: seq<Candle>, batch: seq<Candle>, all: seq<Candle>, seen: set<int>, ghost lo: nat,
                   ghost hi: nat)
    returns (all': seq<Candle>, seen': set<int>)
    requires StrictlyOrdered(Earlier, server) && Fetched(server, all, seen, lo, hi)
    requires batch == server[PageStart(lo)..lo]
    ensures Fetched(server, all', seen', PageStart(lo), hi)
  {
    all', seen' := AddBatch(batch, all, seen);
    PageJoins(server, all, all', seen, seen', lo, hi);
  }

  /** The paging loop. `answered(t)` says whether the request up to t succeeds. Unless a request fails, the loop ends,
      because the cursor strictly falls, and returns the exchange's range exactly, or without its first candle in just
      the case LosesFirst describes. */
  method FetchPages(server: seq<Candle>, answered: int -> bool, startMs: int, endMs: int)
    returns (r: Result<seq<Candle>, int>)
    requires StrictlyOrdered(Earlier, server)
    ensures r.Ok? ==> r.data == Delivered(server, startMs, endMs)
    ensures r.Err? ==> startMs < r.error <= endMs && !answered(r.error)
  {
    var seen: set<int> := {};
    var all: seq<Candle> := [];
    var cursorEnd := endMs;
    ghost var lo := CountUpTo(server, endMs);
    FirstPage(server, startMs, endMs);
    while cursorEnd > startMs
      invariant AtPage(server, startMs, endMs, lo, cursorEnd)
      invariant Fetched(server, all, seen, lo, CountUpTo(server, endMs))
      decreases cursorEnd - startMs
    {
      if !answered(cursorEnd) {
        return Err(cursorEnd);
      }
      var batch := Page(server, cursorEnd);
      if |batch| == 0 {
        break;
      }
      all, seen := MergePage(server, batch, all, seen, lo, CountUpTo(server, endMs));
      NextPage(server, startMs, endMs, lo, cursorEnd);
      lo := PageStart(lo);
      cursorEnd := batch[0].timestamp - 1;
      if cursorEnd <= startMs {
        break;
      }
    }
    PagesDeliver(server, startMs, endMs, all, seen, lo, cursorEnd);
    return Ok(InRange(Sort(Earlier, all), startMs, endMs));
  }

  // The cache answers when its last candle is not before the end of the range.
  predicate CacheHit(cached: seq<Candle>, endMs: int) {
    cached != [] && cached[|cached| - 1].timestamp >= endMs
  }

  /** The whole fetch: what the cache holds of the range if it answers, else what the pages deliver, which is then
      `saved` unless it is empty. */
  method FetchOHLCV(server: seq<Candle>, answered: int -> bool, cached: seq<Candle>, startMs: int, endMs: int)
    returns (r: Result<seq<Candle>, int>, saved: Option<seq<Candle>>)
    requires StrictlyOrdered(Earlier, server)
    ensures cached != [] && cached[|cached| - 1].timestamp >= endMs ==>
      r == Ok(InRange(cached, startMs, endMs)) && saved == None
    ensures (cached == [] || cached[|cached| - 1].timestamp < endMs) && r.Ok? ==>
      r.data == Delivered(server, startMs, endMs) && saved == if r.data == [] then None else Some(r.data)
    ensures r.Err? ==>
      && (cached == [] || cached[|cached| - 1].timestamp < endMs)
      && startMs < r.error <= endMs && !answered(r.error) && saved == None
  {
    saved := None;
    if |cached| > 0 && cached[|cached| - 1].timestamp >= endMs {
      return Ok(InRange(cached, startMs, endMs)), saved;
    }
    r := FetchPages(server, answered, startMs, endMs);
    if r.Ok? && |r.data| > 0 {
      saved := Some(r.data);
    }
  }

  lemma LosesFirstOfRange(server: seq<Candle>, startMs: int, endMs: int)
    requires StrictlyOrdered(Earlier, server) && LosesFirst(server, startMs, endMs)
    ensures InRange(server, startMs, endMs) != []
  {
    RangeIsSlice(server, startMs, endMs);
    if startMs == endMs {
      SingleMoment(server, startMs);
    } else {
      LostPosition(server, startMs, endMs);
    }
  }

  /** When the pages equal the range query: exactly when LosesFirst does not hold. */
  lemma FetchIsRangeQuery(server: seq<Candle>, startMs: int, endMs: int)
    requires StrictlyOrdered(Earlier, server)
    ensures Delivered(server, startMs, endMs) == InRange(server, startMs, endMs)
       <==> !LosesFirst(server, startMs, endMs)
    ensures StrictlyOrdered(Earlier, Delivered(server, startMs, endMs))
  {
    RangeIsSlice(server, startMs, endMs);
    if LosesFirst(server, startMs, endMs) {
      LosesFirstOfRange(server, startMs, endMs);
    }
  }

  // In particular on a proper range of candles at least two milliseconds apart.
  lemma SpacedCandlesLoseNothing(server: seq<Candle>, startMs: int, endMs: int)
    requires StrictlyOrdered(Earlier, server) && startMs < endMs
    requires forall i, j :: 0 <= i < j < |server| ==> server[j].timestamp - server[i].timestamp >= 2
    ensures Delivered(server, startMs, endMs) == InRange(server, startMs, endMs)
  {
    if LosesFirst(server, startMs, endMs) {
      LostPosition(server, startMs, endMs);
    }
  }

  // The fetch of a single moment loses its candle ...
  lemma SingleMomentIsLost(c: Candle)
    ensures InRange([c], c.timestamp, c.timestamp) == [c] && Delivered([c], c.timestamp, c.timestamp) == []
  {
    AllInRange([c], c.timestamp, c.timestamp);
    assert c in [c];
    assert [c][1..] == [];
  }

  // One candle a millisecond.
  function EveryMillisecond(startMs: int, n: nat): (server: seq<Candle>)
    ensures |server| == n
    ensures forall k :: 0 <= k < n ==> server[k].timestamp == startMs + k
  {
    seq(n, k requires 0 <= k < n => Candle(startMs + k, 0.0, 0.0, 0.0, 0.0, 0.0))
  }

  // What a server of one page and one candle has in range.
  lemma PageInRange(startMs: int)
    ensures var server, endMs := EveryMillisecond(startMs, 1001), startMs + 1000;
      && InRange(server, startMs, endMs) == server && InRange(server, startMs + 1, endMs) == server[1..]
  {
    var server, endMs := EveryMillisecond(startMs, 1001), startMs + 1000;
    AllInRange(server, startMs, endMs);
    var first, rest := server[..1], server[1..];
    assert server == first + rest;
    InRangeConcat(first, rest, startMs + 1, endMs);
    NoneInRange(first, startMs + 1, endMs);
    AllInRange(rest, startMs + 1, endMs);
  }

  // ... and so does a fetch whose first page begins one millisecond after the start of the range.
  lemma PageEdgeIsLost(startMs: int)
    ensures var server, endMs := EveryMillisecond(startMs, 1001), startMs + 1000;
      && StrictlyOrdered(Earlier, server) && LosesFirst(server, startMs, endMs)
      && InRange(server, startMs, endMs) == server && Delivered(server, startMs, endMs) == server[1..]
  {
    var server := EveryMillisecond(startMs, 1001);
    assert server[0] in server && server[1] in server;
    PageInRange(startMs);
  }

  // ----- the cache

  lemma {:induction false} InRangeMember(candles: seq<Candle>, startMs: int, endMs: int, c: Candle)
    ensures c in InRange(candles, startMs, endMs) <==> c in candles && startMs <= c.timestamp <= endMs
  {
    if candles != [] {
      var front, last := candles[..|candles| - 1], candles[|candles| - 1];
      InRangeMember(front, startMs, endMs, c);
      assert c in candles <==> c in front || c == last;
    }
  }

  // A candle of the wanted range from before the cached ones.
  ghost predicate MissedByCache(server: seq<Candle>, cachedFrom: int, startMs: int, endMs: int) {
    exists c :: c in server && startMs <= c.timestamp <= endMs && c.timestamp < cachedFrom
  }

  lemma MissedExactly(server: seq<Candle>, a: nat, startMs: int, endMs: int)
    requires StrictlyOrdered(Earlier, server) && a < |server|
    ensures MissedByCache(server, server[a].timestamp, startMs, endMs)
       <==> exists k :: 0 <= k < a && startMs <= server[k].timestamp <= endMs
  {
    if c :| c in server && startMs <= c.timestamp <= endMs && c.timestamp < server[a].timestamp {
      var k :| 0 <= k < |server| && server[k] == c;
      assert a < k ==> Earlier(server[a], server[k]);
      assert k < a;
    }
    if k :| 0 <= k < a && startMs <= server[k].timestamp <= endMs {
      assert Earlier(server[k], server[a]) && server[k] in server;
    }
  }

  // What a piece of the server answers: the wanted range without what lies before the piece.
  lemma PieceAnswers(server: seq<Candle>, a: nat, b: nat, startMs: int, endMs: int)
    requires StrictlyOrdered(Earlier, server) && a < b <= |server| && CacheHit(server[a..b], endMs)
    ensures InRange(server, startMs, endMs)
         == InRange(server[..a], startMs, endMs) + InRange(server[a..b], startMs, endMs)
  {
    var later := server[b..];
    assert server == server[..a] + server[a..b] + later;
    InRangeConcat(server[..a] + server[a..b], later, startMs, endMs);
    InRangeConcat(server[..a], server[a..b], startMs, endMs);
    forall k | 0 <= k < |later| ensures later[k].timestamp > endMs {
      assert Earlier(server[b - 1], server[b + k]);
    }
    NoneInRange(later, startMs, endMs);
  }

  /** When cached candles answer for a range, and they are any stretch of what the exchange has, the answer is right
      exactly if no candle of the range lies before the first cached one: a hit looks at the last cached candle only. */
  lemma CacheAnswersExactly(server: seq<Candle>, a: nat, b: nat, startMs: int, endMs: int)
    requires StrictlyOrdered(Earlier, server) && a < b <= |server| && CacheHit(server[a..b], endMs)
    ensures InRange(server[a..b], startMs, endMs) == InRange(server, startMs, endMs)
       <==> !MissedByCache(server, server[a].timestamp, startMs, endMs)
  {
    PieceAnswers(server, a, b, startMs, endMs);
    MissedExactly(server, a, startMs, endMs);
    var early := server[..a];
    if k :| 0 <= k < a && startMs <= server[k].timestamp <= endMs {
      InRangeMember(early, startMs, endMs, early[k]);
      assert early[k] in early;
    } else {
      NoneInRange(early, startMs, endMs);
    }
  }

  // What a fetch saves is such a stretch, with or without a lost first candle.
  lemma SavedIsPiece(server: seq<Candle>, s: int, e: int) returns (a: nat, b: nat)
    requires StrictlyOrdered(Earlier, server) && Delivered(server, s, e) != []
    ensures a < b <= |server| && Delivered(server, s, e) == server[a..b]
  {
    RangeIsSlice(server, s, e);
    a, b := CountUpTo(server, s - 1), CountUpTo(server, e);
    if LosesFirst(server, s, e) {
      assert server[a..b][1..] == server[a + 1..b];
      a := a + 1;
    }
  }

  /** So it is with what the fetch of one range saves and the fetch of another one finds. */
  lemma SavedAnswersExactly(server: seq<Candle>, s: int, e: int, startMs: int, endMs: int)
    requires StrictlyOrdered(Earlier, server) && CacheHit(Delivered(server, s, e), endMs)
    ensures var saved := Delivered(server, s, e);
      InRange(saved, startMs, endMs) == InRange(server, startMs, endMs)
      <==> !MissedByCache(server, saved[0].timestamp, startMs, endMs)
  {
    var a, b := SavedIsPiece(server, s, e);
    CacheAnswersExactly(server, a, b, startMs, endMs);
  }

  lemma OnlyFirstAtStart(startMs: int, n: nat, endMs: int)
    requires n > 1 && startMs <= endMs
    ensures var server := EveryMillisecond(startMs, n);
      server[0] in InRange(server, startMs, endMs) && server[0] !in InRange(server[1..], startMs, endMs)
  {
    var server := EveryMillisecond(startMs, n);
    InRangeMember(server, startMs, endMs, server[0]);
    InRangeMember(server[1..], startMs, endMs, server[0]);
    assert server[0] in server;
    assert forall k :: 0 <= k < |server[1..]| ==> server[1..][k].timestamp == startMs + 1 + k;
  }

  // A range inside the one that was fetched can be answered wrongly: the first candle, lost when the pages were
  // saved, stays lost.
  lemma LostCandleStaysLost(startMs: int)
    ensures var server := EveryMillisecond(startMs, 1001);
      var saved := Delivered(server, startMs, startMs + 1000);
      && CacheHit(saved, startMs + 500)
      && server[0] in InRange(server, startMs, startMs + 500) && server[0] !in InRange(saved, startMs, startMs + 500)
  {
    PageEdgeIsLost(startMs);
    OnlyFirstAtStart(startMs, 1001, startMs + 500);
  }

  // And so can a range that begins earlier: two candles, of which the second one is cached.
  lemma EarlierCandleIsMissed(c: Candle, d: Candle)
    requires c.timestamp < d.timestamp
    ensures CacheHit([d], d.timestamp)
    ensures InRange([c, d], c.timestamp, d.timestamp) == [c, d] && InRange([d], c.timestamp, d.timestamp) == [d]
  {
    AllInRange([c, d], c.timestamp, d.timestamp);
    AllInRange([d], c.timestamp, d.timestamp);
  }
}
