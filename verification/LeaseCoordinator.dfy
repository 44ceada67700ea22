/**
 The cloud scheduler's lease coordinator (src/ee/scheduler/cloud-scheduler-coordinator.ts): one lease for each
 bot and minute, kept in a map that is pruned at every call.
 */
module LeaseCoordinator {
  import opened Wrappers
  import opened LeaseKeys

  datatype BotTickLease = BotTickLease(botId: string, workspaceId: string, isolateId: string, epochMinute: int,
                                       acquiredAtMs: int, expiresAtMs: int)

  datatype AcquireTickInput = AcquireTickInput(botId: string, workspaceId: string, isolateId: string, nowMs: int,
                                               leaseDurationMs: Option<int>)

  // DUPLICATE_TICK_GUARD, with what its message carries.
  datatype DuplicateTick = DuplicateTick(botId: string, heldBy: string, epochMinute: int)

  type Store = map<string, BotTickLease>

  const DEFAULT_DURATION_MS: int := 55000

  function Duration(input: AcquireTickInput): int {
    if input.leaseDurationMs.Some? then input.leaseDurationMs.value else DEFAULT_DURATION_MS
  }

  // Math.floor(nowMs / 60_000); Dafny's division by a positive number is the floor.
  function EpochMinute(nowMs: int): int {
    nowMs / 60000
  }

  function KeyOf(input: AcquireTickInput): string {
    LeaseKey(input.workspaceId, input.botId, EpochMinute(input.nowMs))
  }

  function LeaseFor(input: AcquireTickInput): BotTickLease {
    BotTickLease(input.botId, input.workspaceId, input.isolateId, EpochMinute(input.nowMs), input.nowMs,
                 input.nowMs + Duration(input))
  }

  // What is live at a time.
  function Prune(leases: Store, nowMs: int): Store {
    map k | k in leases && leases[k].expiresAtMs > nowMs :: leases[k]
  }

  // The acquisition itself, on whatever store it is given.
  function Acquire(leases: Store, input: AcquireTickInput): (Store, Result<BotTickLease, DuplicateTick>) {
    var key := KeyOf(input);
    if key in leases && leases[key].expiresAtMs > input.nowMs then
      (leases, Err(DuplicateTick(input.botId, leases[key].isolateId, EpochMinute(input.nowMs))))
    else (leases[key := LeaseFor(input)], Ok(LeaseFor(input)))
  }

  // An absent or empty workspace id counts every workspace.
  predicate Counts(lease: BotTickLease, nowMs: int, workspaceId: Option<string>) {
    && lease.expiresAtMs > nowMs
    && (workspaceId.None? || workspaceId.value == "" || lease.workspaceId == workspaceId.value)
  }

  function ActiveKeys(leases: Store, nowMs: int, workspaceId: Option<string>): set<string> {
    set k | k in leases && Counts(leases[k], nowMs, workspaceId)
  }

  lemma RemovalCount(m: Store, k: string)
    requires k in m
    ensures |m - {k}| == |m| - 1
  {
    assert (m - {k}).Keys == m.Keys - {k};
  }

  class CloudSchedulerCoordinator {
    var leases: Store

    constructor ()
      ensures leases == map[]
    {
      leases := map[];
    }

    method PruneExpiredLeases(nowMs: int) returns (pruned: int)
      modifies this
      ensures leases == Prune(old(leases), nowMs)
      ensures forall k :: k in leases <==> k in old(leases) && old(leases)[k].expiresAtMs > nowMs
      ensures forall k :: k in leases ==> leases[k] == old(leases)[k]
      ensures pruned == |old(leases)| - |leases|
    {
      pruned := 0;
      ghost var before := leases;
      var pending := leases.Keys;
      while pending != {}
        invariant pending <= leases.Keys <= before.Keys
        invariant forall k :: k in before ==>
          (k in leases <==> k in pending || before[k].expiresAtMs > nowMs) && (k in leases ==> leases[k] == before[k])
        invariant pruned == |before| - |leases|
      {
        var key :| key in pending;
        pending := pending - {key};
        if leases[key].expiresAtMs <= nowMs {
          RemovalCount(leases, key);
          leases := leases - {key};
          pruned := pruned + 1;
        }
      }
      assert leases == Prune(before, nowMs);
    }

    method AcquireTickLease(input: AcquireTickInput) returns (r: Result<BotTickLease, DuplicateTick>)
      modifies this
      ensures (leases, r) == Acquire(Prune(old(leases), input.nowMs), input)
      ensures r.Ok? ==>
        var lease := r.data;
        && lease.botId == input.botId && lease.workspaceId == input.workspaceId && lease.isolateId == input.isolateId
        && lease.acquiredAtMs == input.nowMs
        && lease.expiresAtMs - lease.acquiredAtMs
           == (if input.leaseDurationMs.Some? then input.leaseDurationMs.value else 55000)
        && lease.epochMinute * 60000 <= input.nowMs < (lease.epochMinute + 1) * 60000
        && var key := LeaseKey(input.workspaceId, input.botId, lease.epochMinute);
        && leases == Prune(old(leases), input.nowMs)[key := lease]
      ensures r.Err? ==>
        var key := LeaseKey(input.workspaceId, input.botId, r.error.epochMinute);
        && r.error.botId == input.botId
        && r.error.epochMinute * 60000 <= input.nowMs < (r.error.epochMinute + 1) * 60000
        && key in old(leases) && old(leases)[key].expiresAtMs > input.nowMs
        && r.error.heldBy == old(leases)[key].isolateId
        && leases == Prune(old(leases), input.nowMs)
    {
      var pruned := PruneExpiredLeases(input.nowMs);
      var leaseDurationMs := if input.leaseDurationMs.Some? then input.leaseDurationMs.value else DEFAULT_DURATION_MS;
      var epochMinute := input.nowMs / 60000;
      var leaseKey := LeaseKey(input.workspaceId, input.botId, epochMinute);
      if leaseKey in leases && leases[leaseKey].expiresAtMs > input.nowMs {
        return Err(DuplicateTick(input.botId, leases[leaseKey].isolateId, epochMinute));
      }
      var lease := BotTickLease(input.botId, input.workspaceId, input.isolateId, epochMinute, input.nowMs,
                                input.nowMs + leaseDurationMs);
      leases := leases[leaseKey := lease];
      return Ok(lease);
    }

    method ActiveLeaseCount(nowMs: int, workspaceId: Option<string>) returns (count: int)
      modifies this
      ensures leases == Prune(old(leases), nowMs)
      ensures count == |ActiveKeys(old(leases), nowMs, workspaceId)|
      ensures forall k :: k in ActiveKeys(old(leases), nowMs, workspaceId) <==>
        && k in old(leases) && old(leases)[k].expiresAtMs > nowMs
        && (workspaceId == None || workspaceId == Some("") || workspaceId == Some(old(leases)[k].workspaceId))
    {
      var pruned := PruneExpiredLeases(nowMs);
      count := 0;
      var pending := leases.Keys;
      ghost var counted: set<string> := {};
      while pending != {}
        invariant pending <= leases.Keys && counted !! pending && count == |counted|
        invariant counted == set k | k in leases.Keys - pending && Counts(leases[k], nowMs, workspaceId)
      {
        var key :| key in pending;
        pending := pending - {key};
        if Counts(leases[key], nowMs, workspaceId) {
          count := count + 1;
          counted := counted + {key};
        }
      }
      assert counted == ActiveKeys(old(leases), nowMs, workspaceId);
    }

    method ClearLeases()
      modifies this
      ensures leases == map[]
    {
      leases := map[];
    }
  }

  // ----- runs

  datatype Call =
    | AcquireCall(input: AcquireTickInput)
    | PruneCall(nowMs: int)
    | CountCall(nowMs: int, workspaceId: Option<string>)
    | ClearCall(nowMs: int)

  datatype Answer =
    | Lease(result: Result<BotTickLease, DuplicateTick>)
    | Count(n: int)
    | Done

  function TimeOf(c: Call): int {
    if c.AcquireCall? then c.input.nowMs else c.nowMs
  }

  // The coordinator: every call prunes first.
  function Serve(leases: Store, c: Call): (Store, Answer) {
    match c
    case AcquireCall(input) => var (s, r) := Acquire(Prune(leases, input.nowMs), input); (s, Lease(r))
    case PruneCall(now) => (Prune(leases, now), Done)
    case CountCall(now, w) => (Prune(leases, now), Count(|ActiveKeys(leases, now, w)|))
    case ClearCall(_) => (map[], Done)
  }

  // The reference: a store that never forgets a lease.
  function ServeUnpruned(leases: Store, c: Call): (Store, Answer) {
    match c
    case AcquireCall(input) => var (s, r) := Acquire(leases, input); (s, Lease(r))
    case PruneCall(_) => (leases, Done)
    case CountCall(now, w) => (leases, Count(|ActiveKeys(leases, now, w)|))
    case ClearCall(_) => (map[], Done)
  }

  ghost function Answers(leases: Store, calls: seq<Call>): seq<Answer>
    decreases |calls|
  {
    if calls == [] then [] else [Serve(leases, calls[0]).1] + Answers(Serve(leases, calls[0]).0, calls[1..])
  }

  ghost function AnswersUnpruned(leases: Store, calls: seq<Call>): seq<Answer>
    decreases |calls|
  {
    if calls == [] then []
    else [ServeUnpruned(leases, calls[0]).1] + AnswersUnpruned(ServeUnpruned(leases, calls[0]).0, calls[1..])
  }

  ghost predicate ClockFrom(clock: int, calls: seq<Call>)
    decreases |calls|
  {
    calls != [] ==> clock <= TimeOf(calls[0]) && ClockFrom(TimeOf(calls[0]), calls[1..])
  }

  lemma PruneLater(m: Store, t: int, u: int)
    requires t <= u
    ensures Prune(Prune(m, t), u) == Prune(m, u)
  {
  }

  lemma ServeAlike(p: Store, r: Store, clock: int, c: Call)
    requires Prune(p, clock) == Prune(r, clock) && clock <= TimeOf(c)
    ensures Serve(p, c).1 == ServeUnpruned(r, c).1
    ensures Prune(Serve(p, c).0, TimeOf(c)) == Prune(ServeUnpruned(r, c).0, TimeOf(c))
  {
    var now := TimeOf(c);
    PruneLater(p, clock, now);
    PruneLater(r, clock, now);
    PruneLater(p, now, now);
    match c
    case AcquireCall(input) =>
      AcquireIgnoresExpired(Prune(p, now), input);
      AcquireIgnoresExpired(r, input);
    case CountCall(_, w) =>
      assert ActiveKeys(p, now, w) == ActiveKeys(Prune(p, now), now, w);
      assert ActiveKeys(r, now, w) == ActiveKeys(Prune(r, now), now, w);
    case _ =>
  }

  // An acquisition does the same, up to expired leases, on a store and on what is live of it.
  lemma AcquireIgnoresExpired(m: Store, input: AcquireTickInput)
    ensures var now := input.nowMs;
      && Acquire(m, input).1 == Acquire(Prune(m, now), input).1
      && Prune(Acquire(m, input).0, now) == Prune(Acquire(Prune(m, now), input).0, now)
  {
    var now := input.nowMs;
    var key := KeyOf(input);
    assert key in Prune(m, now) <==> key in m && m[key].expiresAtMs > now;
    PruneLater(m, now, now);
    var lease := LeaseFor(input);
    assert Prune(m[key := lease], now) == Prune(Prune(m, now)[key := lease], now);
  }

  /** Pruning is invisible: under a clock that never goes back the coordinator answers every call of every run as a
      store that never forgets would. */
  lemma {:induction false} PruningIsInvisible(p: Store, r: Store, clock: int, calls: seq<Call>)
    requires Prune(p, clock) == Prune(r, clock) && ClockFrom(clock, calls)
    ensures Answers(p, calls) == AnswersUnpruned(r, calls)
    decreases |calls|
  {
    if calls != [] {
      ServeAlike(p, r, clock, calls[0]);
      PruningIsInvisible(Serve(p, calls[0]).0, ServeUnpruned(r, calls[0]).0, TimeOf(calls[0]), calls[1..]);
    }
  }

  // The clock matters: a store pruned at 200 grants at 50 what is still leased until 100.
  lemma ClockGoingBackShows(bot: string, w: string, isolate: string)
    ensures var first := AcquireTickInput(bot, w, isolate, 0, Some(100));
      var again := AcquireTickInput(bot, w, isolate, 50, Some(100));
      var calls := [AcquireCall(first), PruneCall(200), AcquireCall(again)];
      Answers(map[], calls) != AnswersUnpruned(map[], calls)
  {
    var first := AcquireTickInput(bot, w, isolate, 0, Some(100));
    var again := AcquireTickInput(bot, w, isolate, 50, Some(100));
    var c0, c1, c2 := AcquireCall(first), PruneCall(200), AcquireCall(again);
    assert KeyOf(first) == KeyOf(again);
    var leased: Store := map[KeyOf(first) := LeaseFor(first)];
    assert [c0, c1, c2][1..] == [c1, c2] && [c1, c2][1..] == [c2];
    assert Serve(map[], c0).0 == leased == ServeUnpruned(map[], c0).0;
    assert Serve(leased, c1).0 == map[];
    var granted, refused := Serve(map[], c2).1, ServeUnpruned(leased, c2).1;
    assert Answers(map[], [c2]) == [granted] && AnswersUnpruned(leased, [c2]) == [refused];
    assert Answers(leased, [c1, c2]) == [Done, granted] && AnswersUnpruned(leased, [c1, c2]) == [Done, refused];
    assert Answers(map[], [c0, c1, c2]) == [Serve(map[], c0).1, Done, granted];
    assert AnswersUnpruned(map[], [c0, c1, c2]) == [Serve(map[], c0).1, Done, refused];
  }

  // ----- exclusion

  // The leases a run grants under one key, in order.
  ghost function Grants(leases: Store, calls: seq<Call>, key: string): seq<BotTickLease>
    decreases |calls|
  {
    if calls == [] then []
    else
      var (next, answer) := Serve(leases, calls[0]);
      (if calls[0].AcquireCall? && KeyOf(calls[0].input) == key && answer.result.Ok? then [answer.result.data] else [])
      + Grants(next, calls[1..], key)
  }

  ghost predicate NoClear(calls: seq<Call>) {
    forall c :: c in calls ==> !c.ClearCall?
  }

  // Once the key is free (or free from a moment on), later grants under it start no earlier, do
  // not overlap and stand in order.
  ghost predicate FreeFrom(leases: Store, key: string, clock: int, from: int) {
    from <= clock || (key in leases && leases[key].expiresAtMs >= from)
  }

  ghost predicate Disjoint(grants: seq<BotTickLease>) {
    forall i, j :: 0 <= i < j < |grants| ==> grants[i].expiresAtMs <= grants[j].acquiredAtMs
  }

  // A grant starts when its key is free.
  lemma {:induction false} GrantsStartFrom(leases: Store, clock: int, calls: seq<Call>, key: string, from: int)
    requires ClockFrom(clock, calls) && NoClear(calls) && FreeFrom(leases, key, clock, from)
    ensures forall g :: g in Grants(leases, calls, key) ==> g.acquiredAtMs >= from
    decreases |calls|
  {
    if calls != [] {
      assert calls[0] in calls && forall d :: d in calls[1..] ==> d in calls;
      GrantsStartFrom(Serve(leases, calls[0]).0, TimeOf(calls[0]), calls[1..], key, from);
    }
  }

  /** Exclusion: under a clock that never goes back and without clearing, the leases granted under one key are valid at
      disjoint times. */
  lemma {:induction false} GrantsAreDisjoint(leases: Store, clock: int, calls: seq<Call>, key: string)
    requires ClockFrom(clock, calls) && NoClear(calls)
    ensures Disjoint(Grants(leases, calls, key))
    decreases |calls|
  {
    if calls != [] {
      var c, rest := calls[0], calls[1..];
      var (next, answer) := Serve(leases, c);
      var now := TimeOf(c);
      assert c in calls && forall d :: d in rest ==> d in calls;
      GrantsAreDisjoint(next, now, rest, key);
      if c.AcquireCall? && KeyOf(c.input) == key && answer.result.Ok? {
        GrantsStartFrom(next, now, rest, key, answer.result.data.expiresAtMs);
      }
    }
  }

  // Every acquisition of the run asks for the same duration.
  ghost predicate FixedDuration(calls: seq<Call>, d: int) {
    forall c :: c in calls && c.AcquireCall? ==> Duration(c.input) == d
  }

  lemma {:induction false} GrantsAreFor(leases: Store, calls: seq<Call>, w: string, b: string, minute: int, d: int)
    requires FixedDuration(calls, d)
    ensures forall g :: g in Grants(leases, calls, LeaseKey(w, b, minute)) ==>
      g.expiresAtMs == g.acquiredAtMs + d && EpochMinute(g.acquiredAtMs) == minute
    decreases |calls|
  {
    if calls != [] {
      var c := calls[0];
      assert c in calls && forall x :: x in calls[1..] ==> x in calls;
      GrantsAreFor(Serve(leases, c).0, calls[1..], w, b, minute, d);
      if c.AcquireCall? && KeyOf(c.input) == LeaseKey(w, b, minute) {
        SameKey(c.input.workspaceId, c.input.botId, EpochMinute(c.input.nowMs), w, b, minute);
      }
    }
  }

  lemma MulOrder(m: int, n: int, d: int)
    requires m <= n && d >= 0
    ensures m * d <= n * d
  {
  }

  lemma {:induction false} SpacedOut(grants: seq<BotTickLease>, d: int)
    requires Disjoint(grants) && grants != []
    requires forall g :: g in grants ==> g.expiresAtMs == g.acquiredAtMs + d
    ensures grants[|grants| - 1].acquiredAtMs >= grants[0].acquiredAtMs + (|grants| - 1) * d
  {
    var n := |grants| - 1;
    if n > 0 {
      SpacedOut(grants[..n], d);
      assert grants[n - 1] in grants;
    }
  }

  lemma CountFits(n: int, d: int, span: int)
    requires d >= 1 && (n - 1) * d <= span
    ensures n <= span / d + 1
  {
    var q := span / d;
    assert span < (q + 1) * d;
    if q + 1 <= n - 1 {
      MulOrder(q + 1, n - 1, d);
    }
  }

  /** How many leases one bot can get in one minute: with a fixed duration d of at least a millisecond, at most
      floor(59999 / d) + 1. */
  lemma GrantsPerMinute(leases: Store, clock: int, calls: seq<Call>, w: string, b: string, minute: int, d: int)
    requires ClockFrom(clock, calls) && NoClear(calls) && FixedDuration(calls, d) && d >= 1
    ensures |Grants(leases, calls, LeaseKey(w, b, minute))| <= 59999 / d + 1
  {
    var grants := Grants(leases, calls, LeaseKey(w, b, minute));
    GrantsAreDisjoint(leases, clock, calls, LeaseKey(w, b, minute));
    GrantsAreFor(leases, calls, w, b, minute, d);
    if grants != [] {
      SpacedOut(grants, d);
      assert grants[0] in grants && grants[|grants| - 1] in grants;
      CountFits(|grants|, d, 59999);
    }
  }

  // A bot that asks again at the moment its lease runs out, from time k * d for n times.
  ghost function Relay(w: string, b: string, isolate: string, d: int, k: nat, n: nat): seq<Call>
    decreases n
  {
    if n == 0 then []
    else [AcquireCall(AcquireTickInput(b, w, isolate, k * d, Some(d)))] + Relay(w, b, isolate, d, k + 1, n - 1)
  }

  lemma {:induction false} RelayIsGranted(leases: Store, w: string, b: string, isolate: string, d: int, k: nat, n: nat)
    requires d >= 1 && (n > 0 ==> 0 <= (k + n - 1) * d <= 59999)
    requires LeaseKey(w, b, 0) in leases ==> leases[LeaseKey(w, b, 0)].expiresAtMs <= k * d
    ensures |Grants(leases, Relay(w, b, isolate, d, k, n), LeaseKey(w, b, 0))| == n
    ensures ClockFrom(k * d, Relay(w, b, isolate, d, k, n)) && FixedDuration(Relay(w, b, isolate, d, k, n), d)
    ensures NoClear(Relay(w, b, isolate, d, k, n))
    decreases n
  {
    if n > 0 {
      MulOrder(0, k, d);
      MulOrder(k, k + n - 1, d);
      var input := AcquireTickInput(b, w, isolate, k * d, Some(d));
      var tail := Relay(w, b, isolate, d, k + 1, n - 1);
      var next := Serve(leases, AcquireCall(input)).0;
      assert KeyOf(input) == LeaseKey(w, b, 0);
      assert next[KeyOf(input)] == LeaseFor(input);
      RelayIsGranted(next, w, b, isolate, d, k + 1, n - 1);
      assert ([AcquireCall(input)] + tail)[1..] == tail;
    }
  }

  /** The bound is attained: for every duration a bot that asks again whenever its lease runs out gets that many. */
  lemma GrantsPerMinuteIsTight(w: string, b: string, isolate: string, d: int)
    requires d >= 1
    ensures var calls := Relay(w, b, isolate, d, 0, 59999 / d + 1);
      && ClockFrom(0, calls) && NoClear(calls) && FixedDuration(calls, d)
      && |Grants(map[], calls, LeaseKey(w, b, 0))| == 59999 / d + 1
  {
    var q := 59999 / d;
    assert 0 <= q * d <= 59999;
    RelayIsGranted(map[], w, b, isolate, d, 0, q + 1);
  }

  // ----- how many leases a bot can hold

  ghost function After(leases: Store, calls: seq<Call>): Store
    decreases |calls|
  {
    if calls == [] then leases else After(Serve(leases, calls[0]).0, calls[1..])
  }

  ghost function LastTime(clock: int, calls: seq<Call>): int
    decreases |calls|
  {
    if calls == [] then clock else LastTime(TimeOf(calls[0]), calls[1..])
  }

  ghost predicate GrantedBy(c: Call, k: string, lease: BotTickLease) {
    c.AcquireCall? && k == KeyOf(c.input) && lease == LeaseFor(c.input)
  }

  // Whatever the clock does, every lease a run leaves was there before or was granted by one of its calls.
  lemma {:induction false} LeasesComeFromCalls(leases: Store, calls: seq<Call>, k: string)
    requires k in After(leases, calls)
    ensures (k in leases && After(leases, calls)[k] == leases[k])
         || exists c :: c in calls && GrantedBy(c, k, After(leases, calls)[k])
    decreases |calls|
  {
    if calls != [] {
      var next := Serve(leases, calls[0]).0;
      LeasesComeFromCalls(next, calls[1..], k);
      assert calls[0] in calls && forall c :: c in calls[1..] ==> c in calls;
      if k in next && After(leases, calls)[k] == next[k] && !(k in leases && next[k] == leases[k]) {
        assert GrantedBy(calls[0], k, next[k]);
      }
    }
  }

  lemma {:induction false} CallsAreNotLater(clock: int, calls: seq<Call>)
    requires ClockFrom(clock, calls)
    ensures clock <= LastTime(clock, calls)
    ensures forall c :: c in calls ==> TimeOf(c) <= LastTime(clock, calls)
    decreases |calls|
  {
    if calls != [] {
      CallsAreNotLater(TimeOf(calls[0]), calls[1..]);
    }
  }

  ghost function LiveKeys(leases: Store, w: string, b: string, nowMs: int): set<string> {
    set k | k in leases && leases[k].workspaceId == w && leases[k].botId == b && leases[k].expiresAtMs > nowMs
  }

  lemma {:induction false} SubsetSize(s: set<string>, t: set<string>)
    requires s <= t
    ensures |s| <= |t|
  {
    if s != {} {
      var x :| x in s;
      SubsetSize(s - {x}, t - {x});
    }
  }

  // No acquisition of the run asks for more than a duration.
  ghost predicate DurationsUpTo(calls: seq<Call>, longest: int) {
    forall c :: c in calls && c.AcquireCall? ==> Duration(c.input) <= longest
  }

  /** At no moment does a bot hold more than two live leases, if no lease lasts more than a minute. */
  lemma AtMostTwoLiveLeases(calls: seq<Call>, start: int, w: string, b: string, nowMs: int)
    requires ClockFrom(start, calls) && DurationsUpTo(calls, 60000) && nowMs >= LastTime(start, calls)
    ensures |LiveKeys(After(map[], calls), w, b, nowMs)| <= 2
  {
    var m := EpochMinute(nowMs);
    var live := LiveKeys(After(map[], calls), w, b, nowMs);
    CallsAreNotLater(start, calls);
    forall k | k in live ensures k in {LeaseKey(w, b, m), LeaseKey(w, b, m - 1)} {
      LeasesComeFromCalls(map[], calls, k);
      var l := After(map[], calls)[k];
      assert nowMs - 60000 < l.acquiredAtMs <= nowMs;
      assert l.epochMinute == m || l.epochMinute == m - 1;
    }
    SubsetSize(live, {LeaseKey(w, b, m), LeaseKey(w, b, m - 1)});
  }

  // The lease is live and belongs to this bot for this minute.
  ghost predicate HeldFor(lease: BotTickLease, input: AcquireTickInput) {
    && lease.workspaceId == input.workspaceId && lease.botId == input.botId
    && lease.epochMinute == EpochMinute(input.nowMs) && lease.expiresAtMs > input.nowMs
  }

  ghost predicate ColonFree(calls: seq<Call>) {
    forall c :: c in calls && c.AcquireCall? ==> ':' !in c.input.workspaceId
  }

  lemma FiledUnderOwnKey(calls: seq<Call>, k: string)
    requires ColonFree(calls) && k in After(map[], calls)
    ensures var l := After(map[], calls)[k];
      k == LeaseKey(l.workspaceId, l.botId, l.epochMinute) && ':' !in l.workspaceId
  {
    LeasesComeFromCalls(map[], calls, k);
  }

  /** With colon-free workspace ids a refusal after any run, under any clock, means that this very bot holds a live
      lease for this very minute. */
  lemma RefusalIsOwnLease(calls: seq<Call>, input: AcquireTickInput)
    requires ColonFree(calls) && ':' !in input.workspaceId
    ensures var leases := After(map[], calls);
      Serve(leases, AcquireCall(input)).1.result.Err? <==> exists k :: k in leases && HeldFor(leases[k], input)
  {
    var leases := After(map[], calls);
    var key := KeyOf(input);
    if key in leases {
      FiledUnderOwnKey(calls, key);
      var l := leases[key];
      ColonFreeKeysAreUnique(l.workspaceId, l.botId, l.epochMinute, input.workspaceId, input.botId,
                             EpochMinute(input.nowMs));
    }
    if k :| k in leases && HeldFor(leases[k], input) {
      FiledUnderOwnKey(calls, k);
    }
  }
}
