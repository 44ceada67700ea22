/**
 The API rate limiter (src/forest/api/rate-limiter.ts): fixed windows per key, opened by the first call after
 the last one closed, and a timer that sweeps closed windows away.
 */
module RateLimiter {

  datatype Entry = Entry(count: int, resetAt: int)

  datatype Config = Config(windowMs: int, maxRequests: int)

  datatype Verdict = Verdict(allowed: bool, remaining: int, resetAt: int)

  type Limits = map<string, Entry>

  function Check(limits: Limits, key: string, config: Config, now: int): (Limits, Verdict) {
    if key !in limits || now > limits[key].resetAt then
      (limits[key := Entry(1, now + config.windowMs)], Verdict(true, config.maxRequests - 1, now + config.windowMs))
    else if limits[key].count >= config.maxRequests then
      (limits, Verdict(false, 0, limits[key].resetAt))
    else
      var e := limits[key].(count := limits[key].count + 1);
      (limits[key := e], Verdict(true, config.maxRequests - e.count, e.resetAt))
  }

  // What the sweep leaves: the windows still open.
  function Open(limits: Limits, now: int): Limits {
    map k | k in limits && now <= limits[k].resetAt :: limits[k]
  }

  class RateLimiter {
    var limits: Limits

    constructor ()
      ensures limits == map[]
    {
      limits := map[];
    }

    method CheckRateLimit(key: string, config: Config, now: int) returns (v: Verdict)
      modifies this
      ensures (limits, v) == Check(old(limits), key, config, now)
      ensures forall k :: k != key ==> (k in limits <==> k in old(limits))
      ensures forall k :: k != key && k in limits ==> limits[k] == old(limits)[k]
      ensures key in limits && v.resetAt == limits[key].resetAt
      ensures var open := key in old(limits) && now <= old(limits)[key].resetAt;
        && (!open ==> v.allowed && v.resetAt == now + config.windowMs && limits[key].count == 1)
        && (open ==> v.resetAt == old(limits)[key].resetAt)
        && (open && old(limits)[key].count >= config.maxRequests ==> !v.allowed && limits == old(limits))
        && (open && old(limits)[key].count < config.maxRequests ==>
              v.allowed && limits[key].count == old(limits)[key].count + 1)
        && v.remaining == if v.allowed then config.maxRequests - limits[key].count else 0
    {
      if key !in limits || now > limits[key].resetAt {
        limits := limits[key := Entry(1, now + config.windowMs)];
        return Verdict(true, config.maxRequests - 1, now + config.windowMs);
      }
      var entry := limits[key];
      if entry.count >= config.maxRequests {
        return Verdict(false, 0, entry.resetAt);
      }
      entry := entry.(count := entry.count + 1);
      limits := limits[key := entry];
      return Verdict(true, config.maxRequests - entry.count, entry.resetAt);
    }

    method Sweep(now: int)
      modifies this
      ensures limits == Open(old(limits), now)
      ensures forall k :: k in limits <==> k in old(limits) && now <= old(limits)[k].resetAt
      ensures forall k :: k in limits ==> limits[k] == old(limits)[k]
    {
      ghost var before := limits;
      var pending := limits.Keys;
      while pending != {}
        invariant pending <= limits.Keys <= before.Keys
        invariant forall k :: k in before ==>
          (k in limits <==> k in pending || now <= before[k].resetAt) && (k in limits ==> limits[k] == before[k])
      {
        var key :| key in pending;
        pending := pending - {key};
        if now > limits[key].resetAt {
          limits := limits - {key};
        }
      }
      assert limits == Open(before, now);
    }
  }

  // ----- runs

  datatype Call =
    | CheckCall(key: string, config: Config, now: int)
    | SweepCall(now: int)

  function Serve(limits: Limits, c: Call): Limits {
    if c.SweepCall? then Open(limits, c.now) else Check(limits, c.key, c.config, c.now).0
  }

  // The answers of a run.
  ghost function Answers(limits: Limits, calls: seq<Call>): seq<Verdict>
    decreases |calls|
  {
    if calls == [] then []
    else
      var rest := Answers(Serve(limits, calls[0]), calls[1..]);
      if calls[0].SweepCall? then rest
      else [Check(limits, calls[0].key, calls[0].config, calls[0].now).1] + rest
  }

  // The same run with every sweep left out.
  ghost function Unswept(calls: seq<Call>): seq<Call> {
    if calls == [] then []
    else if calls[0].SweepCall? then Unswept(calls[1..])
    else [calls[0]] + Unswept(calls[1..])
  }

  ghost predicate ClockFrom(clock: int, calls: seq<Call>)
    decreases |calls|
  {
    calls != [] ==> clock <= calls[0].now && ClockFrom(calls[0].now, calls[1..])
  }

  lemma OpenLater(m: Limits, t: int, u: int)
    requires t <= u
    ensures Open(Open(m, t), u) == Open(m, u)
  {
  }

  // A check sees only the open windows.
  lemma CheckSeesOpenWindows(m: Limits, key: string, config: Config, now: int)
    ensures Check(m, key, config, now).1 == Check(Open(m, now), key, config, now).1
    ensures Open(Check(m, key, config, now).0, now) == Open(Check(Open(m, now), key, config, now).0, now)
  {
    var w, w' := Check(m, key, config, now).0, Check(Open(m, now), key, config, now).0;
    assert key in Open(m, now) <==> key in m && now <= m[key].resetAt;
    assert forall k :: k in Open(w, now) <==> k in Open(w', now);
  }

  // Two stores with the same open windows give the same verdict and stay alike.
  lemma CheckAlike(p: Limits, r: Limits, clock: int, key: string, config: Config, now: int)
    requires Open(p, clock) == Open(r, clock) && clock <= now
    ensures Check(p, key, config, now).1 == Check(r, key, config, now).1
    ensures Open(Check(p, key, config, now).0, now) == Open(Check(r, key, config, now).0, now)
  {
    OpenLater(p, clock, now);
    OpenLater(r, clock, now);
    CheckSeesOpenWindows(p, key, config, now);
    CheckSeesOpenWindows(r, key, config, now);
  }

  /** Sweeping is invisible: under a clock that never goes back, sweeps at any moments change no answer of any run. */
  lemma {:induction false} SweepingIsInvisible(p: Limits, r: Limits, clock: int, calls: seq<Call>)
    requires Open(p, clock) == Open(r, clock) && ClockFrom(clock, calls)
    ensures Answers(p, calls) == Answers(r, Unswept(calls))
    decreases |calls|
  {
    if calls != [] {
      var c := calls[0];
      if c.SweepCall? {
        OpenLater(p, clock, c.now);
        OpenLater(r, clock, c.now);
        OpenLater(p, c.now, c.now);
        SweepingIsInvisible(Open(p, c.now), r, c.now, calls[1..]);
      } else {
        CheckAlike(p, r, clock, c.key, c.config, c.now);
        SweepingIsInvisible(Serve(p, c), Serve(r, c), c.now, calls[1..]);
        assert Unswept(calls) == [c] + Unswept(calls[1..]);
      }
    }
  }

  // ----- the bound

  // The calls for `key` that a run allows at times from `a` to `b`.
  ghost function AllowedIn(limits: Limits, calls: seq<Call>, key: string, a: int, b: int): nat
    decreases |calls|
  {
    if calls == [] then 0
    else
      var c := calls[0];
      (if c.CheckCall? && c.key == key && a <= c.now <= b && Check(limits, key, c.config, c.now).1.allowed
       then 1 else 0)
      + AllowedIn(Serve(limits, c), calls[1..], key, a, b)
  }

  ghost predicate OneConfig(calls: seq<Call>, key: string, config: Config) {
    forall c :: c in calls && c.CheckCall? && c.key == key ==> c.config == config
  }

  ghost function Cap(config: Config): int {
    if config.maxRequests < 1 then 1 else config.maxRequests
  }

  // The most calls at times from a to a + windowMs that a store can still allow from `clock` on. At
  // most two windows reach into the interval, and the call that opened the first lies before it. A
  // window that closes inside leaves its rest and room for one more; one that closes later only its rest.
  ghost function Budget(limits: Limits, key: string, config: Config, clock: int, a: int): int {
    var b := a + config.windowMs;
    if clock > b then 0
    else if key !in limits || clock > limits[key].resetAt then
      if clock < a then 2 * Cap(config) - 1 else Cap(config)
    else if limits[key].resetAt < a then 2 * Cap(config) - 1
    else if limits[key].resetAt < b then Cap(config) - limits[key].count + Cap(config)
    else Cap(config) - limits[key].count
  }

  ghost predicate WithinCap(limits: Limits, key: string, config: Config) {
    key in limits ==> 1 <= limits[key].count <= Cap(config)
  }

  lemma BudgetStep(limits: Limits, key: string, config: Config, clock: int, a: int, c: Call)
    requires clock <= c.now && WithinCap(limits, key, config)
    requires c.CheckCall? && c.key == key ==> c.config == config
    ensures WithinCap(Serve(limits, c), key, config)
    ensures var counted := c.CheckCall? && c.key == key && a <= c.now <= a + config.windowMs
        && Check(limits, key, config, c.now).1.allowed;
      (if counted then 1 else 0) + Budget(Serve(limits, c), key, config, c.now, a)
      <= Budget(limits, key, config, clock, a)
  {
  }

  lemma {:induction false} AllowedWithinBudget(limits: Limits, calls: seq<Call>, key: string, config: Config,
                                               clock: int, a: int)
    requires ClockFrom(clock, calls) && OneConfig(calls, key, config) && WithinCap(limits, key, config)
    ensures AllowedIn(limits, calls, key, a, a + config.windowMs) <= Budget(limits, key, config, clock, a)
    decreases |calls|
  {
    if calls != [] {
      var c := calls[0];
      assert c in calls && forall d :: d in calls[1..] ==> d in calls;
      BudgetStep(limits, key, config, clock, a, c);
      AllowedWithinBudget(Serve(limits, c), calls[1..], key, config, c.now, a);
    }
  }

  /** The rate bound: in any interval as long as a window, whatever the other keys and the sweeps do, a key is allowed
      at most 2 * max(1, maxRequests) - 1 calls. */
  lemma RateIsBounded(calls: seq<Call>, key: string, config: Config, start: int, a: int)
    requires ClockFrom(start, calls) && OneConfig(calls, key, config)
    ensures AllowedIn(map[], calls, key, a, a + config.windowMs) <= 2 * Cap(config) - 1
  {
    AllowedWithinBudget(map[], calls, key, config, start, a);
  }

  // n calls at one moment.
  ghost function Burst(key: string, config: Config, now: int, n: nat): seq<Call> {
    if n == 0 then [] else [CheckCall(key, config, now)] + Burst(key, config, now, n - 1)
  }

  // A burst that the open window has room for, and whatever follows it.
  lemma {:induction false} BurstIsAllowed(limits: Limits, key: string, config: Config, now: int, n: nat, a: int, b: int,
                                          rest: seq<Call>)
    requires key in limits && now <= limits[key].resetAt && limits[key].count + n <= config.maxRequests
    requires a <= now <= b
    ensures var e := limits[key].(count := limits[key].count + n);
      AllowedIn(limits, Burst(key, config, now, n) + rest, key, a, b)
      == n + AllowedIn(limits[key := e], rest, key, a, b)
  {
    if n == 0 {
      assert Burst(key, config, now, n) + rest == rest;
      assert limits[key := limits[key]] == limits;
    } else {
      var next := Check(limits, key, config, now).0;
      BurstIsAllowed(next, key, config, now, n - 1, a, b, rest);
      var tail := Burst(key, config, now, n - 1) + rest;
      assert Burst(key, config, now, n) + rest == [CheckCall(key, config, now)] + tail;
      assert ([CheckCall(key, config, now)] + tail)[1..] == tail;
      var e := limits[key].(count := limits[key].count + n);
      assert next[key := e] == limits[key := e];
    }
  }

  // A call that opens a window, and the rest of the window at once.
  ghost function WholeWindow(key: string, config: Config, now: int): seq<Call>
    requires config.maxRequests >= 1
  {
    [CheckCall(key, config, now)] + Burst(key, config, now, config.maxRequests - 1)
  }

  // When no window is open, a whole window is allowed.
  lemma WholeWindowIsAllowed(limits: Limits, key: string, config: Config, now: int, a: int, b: int)
    requires config.maxRequests >= 1 && config.windowMs >= 0 && a <= now <= b
    requires key in limits ==> now > limits[key].resetAt
    ensures AllowedIn(limits, WholeWindow(key, config, now), key, a, b) == config.maxRequests
  {
    var n := config.maxRequests - 1;
    var c := CheckCall(key, config, now);
    var rest := Burst(key, config, now, n);
    var next := Serve(limits, c);
    assert next[key] == Entry(1, now + config.windowMs);
    BurstIsAllowed(next, key, config, now, n, a, b, []);
    assert rest + [] == rest;
    assert ([c] + rest)[0] == c && ([c] + rest)[1..] == rest;
  }

  // What is left of a window at its last moment, and a whole window right after it.
  lemma EdgeOfWindowIsAllowed(limits: Limits, key: string, config: Config)
    requires config.maxRequests >= 1 && config.windowMs >= 1
    requires key in limits && limits[key] == Entry(1, config.windowMs)
    ensures var w, n := config.windowMs, config.maxRequests - 1;
      AllowedIn(limits, Burst(key, config, w, n) + WholeWindow(key, config, w + 1), key, 1, w + 1)
      == n + config.maxRequests
  {
    var w, n := config.windowMs, config.maxRequests - 1;
    BurstIsAllowed(limits, key, config, w, n, 1, w + 1, WholeWindow(key, config, w + 1));
    WholeWindowIsAllowed(limits[key := Entry(1 + n, w)], key, config, w + 1, 1, w + 1);
  }

  // One call at 0, the rest of its window at the last moment, and a whole window right after it.
  ghost function WorstCase(key: string, config: Config): seq<Call>
    requires config.maxRequests >= 1
  {
    [CheckCall(key, config, 0)]
    + (Burst(key, config, config.windowMs, config.maxRequests - 1) + WholeWindow(key, config, config.windowMs + 1))
  }

  /** The bound is attained: it cannot be improved for any configuration with a window of at least a millisecond. */
  lemma RateBoundIsTight(key: string, config: Config)
    requires config.maxRequests >= 1 && config.windowMs >= 1
    ensures AllowedIn(map[], WorstCase(key, config), key, 1, 1 + config.windowMs) == 2 * Cap(config) - 1
  {
    var c := CheckCall(key, config, 0);
    var rest := WorstCase(key, config)[1..];
    assert WorstCase(key, config) == [c] + rest;
    EdgeOfWindowIsAllowed(Serve(map[], c), key, config);
  }

  // A full window refuses a whole burst.
  lemma {:induction false} BurstIsRefused(limits: Limits, key: string, config: Config, now: int, n: nat, a: int, b: int)
    requires key in limits && now <= limits[key].resetAt && limits[key].count >= config.maxRequests
    ensures AllowedIn(limits, Burst(key, config, now, n), key, a, b) == 0
  {
    if n > 0 {
      BurstIsRefused(limits, key, config, now, n - 1, a, b);
    }
  }

  /** `remaining` is exact: at any one moment until `resetAt`, of remaining + more further calls just the first
      `remaining` are allowed. */
  lemma RemainingIsExact(limits: Limits, key: string, config: Config, now: int, t: int, more: nat)
    requires config.maxRequests >= 1
    requires now <= t <= Check(limits, key, config, now).1.resetAt
    ensures var (after, v) := Check(limits, key, config, now);
      && v.remaining >= 0
      && AllowedIn(after, Burst(key, config, t, v.remaining) + Burst(key, config, t, more), key, t, t) == v.remaining
  {
    var (after, v) := Check(limits, key, config, now);
    var rest := Burst(key, config, t, more);
    if v.remaining == 0 {
      assert Burst(key, config, t, 0) + rest == rest;
      BurstIsRefused(after, key, config, t, more, t, t);
    } else {
      var full := after[key := after[key].(count := after[key].count + v.remaining)];
      BurstIsAllowed(after, key, config, t, v.remaining, t, t, rest);
      BurstIsRefused(full, key, config, t, more, t, t);
    }
  }
}
