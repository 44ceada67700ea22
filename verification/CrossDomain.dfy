/**
 The cross-domain executor (src/execution/cross-domain-executor.ts): a trade with a CEX leg, a DEX leg and a hedge,
 guarded by a lock. JavaScript runs each stretch between two awaits without interruption, so an
 execution is the atomic steps Begin, CexDone, DexDone and HedgeDone, and the steps of any number of
 callers interleave.
 */
module CrossDomain {
  import opened Counting

  datatype ExecutionResult =
    | Busy        // 'Executor is currently processing another trade.'
    | CexFailed   // 'CEX leg failed'
    | Hedged      // 'DEX leg failed. CEX leg hedged.'
    | Traded      // success

  // Where a caller stands: not started, waiting for a leg, or finished with a result.
  datatype Progress =
    | Idle
    | AwaitCex
    | AwaitDex
    | AwaitHedge
    | Finished(result: ExecutionResult)

  predicate InProgress(p: Progress) {
    p == AwaitCex || p == AwaitDex || p == AwaitHedge
  }

  // One stretch of an execution: what it does to the lock and to its caller, given whether the
  // awaited leg succeeded.
  function Advance(locked: bool, p: Progress, success: bool): (bool, Progress) {
    match p
    case Idle => (true, if locked then Finished(Busy) else AwaitCex)
    case AwaitCex => if success then (locked, AwaitDex) else (false, Finished(CexFailed))
    case AwaitDex => if success then (false, Finished(Traded)) else (locked, AwaitHedge)
    case AwaitHedge => (false, Finished(Hedged))
    case Finished(_) => (locked, p)
  }

  class CrossDomainExecutor {
    var isLocked: bool

    constructor ()
      ensures !isLocked
    {
      isLocked := false;
    }

    // Up to the first await. The refusal returns before the try block, so it does not release the lock.
    method Begin() returns (p: Progress)
      modifies this
      ensures forall success :: (isLocked, p) == Advance(old(isLocked), Idle, success)
      ensures isLocked && p == if old(isLocked) then Finished(Busy) else AwaitCex
    {
      if isLocked {
        return Finished(Busy);
      }
      isLocked := true;
      return AwaitCex;
    }

    // Each later stretch either awaits the next leg or returns through the finally block.
    method CexDone(success: bool) returns (p: Progress)
      modifies this
      ensures (isLocked, p) == Advance(old(isLocked), AwaitCex, success)
      ensures if success then p == AwaitDex && isLocked == old(isLocked) else p == Finished(CexFailed) && !isLocked
    {
      if !success {
        isLocked := false;
        return Finished(CexFailed);
      }
      return AwaitDex;
    }

    method DexDone(success: bool) returns (p: Progress)
      modifies this
      ensures (isLocked, p) == Advance(old(isLocked), AwaitDex, success)
      ensures if success then p == Finished(Traded) && !isLocked else p == AwaitHedge && isLocked == old(isLocked)
    {
      if !success {
        return AwaitHedge;
      }
      isLocked := false;
      return Finished(Traded);
    }

    method HedgeDone() returns (p: Progress)
      modifies this
      ensures forall success :: (isLocked, p) == Advance(old(isLocked), AwaitHedge, success)
      ensures p == Finished(Hedged) && !isLocked
    {
      isLocked := false;
      return Finished(Hedged);
    }
  }

  // ----- interleavings

  // The lock, the callers and what happened on the two venues.
  datatype World = World(isLocked: bool, callers: seq<Progress>, cexFilled: nat, cexFailed: nat, dexCompleted: nat,
                         hedges: nat, refused: nat)

  // A caller starts, or the leg it waits for is answered.
  datatype Step = Step(caller: nat, success: bool)

  predicate Enabled(w: World, s: Step) {
    s.caller < |w.callers| && !w.callers[s.caller].Finished?
  }

  // The mock CEX and DEX legs happen when their promise resolves with success, the hedge always.
  function Next(w: World, s: Step): World
    requires Enabled(w, s)
  {
    var before := w.callers[s.caller];
    var (locked, after) := Advance(w.isLocked, before, s.success);
    World(locked, w.callers[s.caller := after],
          if before == AwaitCex && s.success then w.cexFilled + 1 else w.cexFilled,
          if before == AwaitCex && !s.success then w.cexFailed + 1 else w.cexFailed,
          if before == AwaitDex && s.success then w.dexCompleted + 1 else w.dexCompleted,
          if before == AwaitHedge then w.hedges + 1 else w.hedges,
          if before == Idle && w.isLocked then w.refused + 1 else w.refused)
  }

  ghost function StartWorld(n: nat): World {
    World(false, seq(n, _ => Idle), 0, 0, 0, 0, 0)
  }

  ghost predicate Reaches(w: World, steps: seq<Step>, w': World)
    decreases |steps|
  {
    if steps == [] then w' == w else Enabled(w, steps[0]) && Reaches(Next(w, steps[0]), steps[1..], w')
  }

  ghost function Holding(): Progress -> bool {
    (p: Progress) => InProgress(p)
  }

  // A CEX leg is filled and not yet answered by a DEX leg or a hedge.
  ghost function Exposed(): Progress -> bool {
    (p: Progress) => p == AwaitDex || p == AwaitHedge
  }

  ghost function With(r: ExecutionResult): Progress -> bool {
    (p: Progress) => p == Finished(r)
  }

  // The lock is held exactly while one trade is in progress; filled CEX legs are answered by DEX
  // legs or hedges, but for the open one; and the results tell what happened.
  ghost predicate Inv(w: World) {
    && CountOf(Holding(), w.callers) == (if w.isLocked then 1 else 0)
    && w.cexFilled == w.dexCompleted + w.hedges + CountOf(Exposed(), w.callers)
    && CountOf(With(Traded), w.callers) == w.dexCompleted
    && CountOf(With(Hedged), w.callers) == w.hedges
    && CountOf(With(CexFailed), w.callers) == w.cexFailed
    && CountOf(With(Busy), w.callers) == w.refused
  }

  lemma {:induction false} ExposedHolds(callers: seq<Progress>)
    ensures CountOf(Exposed(), callers) <= CountOf(Holding(), callers)
  {
    if callers != [] {
      ExposedHolds(callers[..|callers| - 1]);
    }
  }

  lemma StepKeepsInv(w: World, s: Step)
    requires Enabled(w, s) && Inv(w)
    ensures Inv(Next(w, s))
  {
    var x := Next(w, s).callers[s.caller];
    assert Next(w, s).callers == w.callers[s.caller := x];
    CountUpdate(Holding(), w.callers, s.caller, x);
    CountUpdate(Exposed(), w.callers, s.caller, x);
    CountUpdate(With(Traded), w.callers, s.caller, x);
    CountUpdate(With(Hedged), w.callers, s.caller, x);
    CountUpdate(With(CexFailed), w.callers, s.caller, x);
    CountUpdate(With(Busy), w.callers, s.caller, x);
    if w.callers[s.caller] != Idle {
      OneIsCounted(Holding(), w.callers, s.caller);
    }
  }

  lemma {:induction false} ReachableInv(w: World, steps: seq<Step>, w': World)
    requires Reaches(w, steps, w') && Inv(w)
    ensures Inv(w')
    decreases |steps|
  {
    if steps != [] {
      StepKeepsInv(w, steps[0]);
      ReachableInv(Next(w, steps[0]), steps[1..], w');
    }
  }

  lemma StartInv(n: nat)
    ensures Inv(StartWorld(n))
  {
    var callers := StartWorld(n).callers;
    CountZero(Holding(), callers);
    CountZero(Exposed(), callers);
    CountZero(With(Traded), callers);
    CountZero(With(Hedged), callers);
    CountZero(With(CexFailed), callers);
    CountZero(With(Busy), callers);
  }

  /** Over every interleaving of any number of callers: no two trades are in progress at once, the lock is held exactly
      while one is, and whenever it is free every filled CEX leg has its DEX leg or its hedge. */
  lemma TradesAreExclusiveAndCovered(n: nat, steps: seq<Step>, w: World)
    requires Reaches(StartWorld(n), steps, w)
    ensures forall i, j :: 0 <= i < j < |w.callers| ==> !(InProgress(w.callers[i]) && InProgress(w.callers[j]))
    ensures w.isLocked <==> exists i :: 0 <= i < |w.callers| && InProgress(w.callers[i])
    ensures !w.isLocked ==> w.cexFilled == w.dexCompleted + w.hedges
    ensures w.isLocked ==> w.dexCompleted + w.hedges <= w.cexFilled <= w.dexCompleted + w.hedges + 1
  {
    StartInv(n);
    ReachableInv(StartWorld(n), steps, w);
    ExposedHolds(w.callers);
    forall i, j | 0 <= i < j < |w.callers|
      ensures !(InProgress(w.callers[i]) && InProgress(w.callers[j]))
    {
      if InProgress(w.callers[i]) && InProgress(w.callers[j]) {
        TwoAreCounted(Holding(), w.callers, i, j);
      }
    }
    if i :| 0 <= i < |w.callers| && InProgress(w.callers[i]) {
      OneIsCounted(Holding(), w.callers, i);
    } else {
      CountZero(Holding(), w.callers);
    }
  }

  /** The results tell what happened: over every interleaving as many callers are told of a trade, a hedge, a failed CEX
      leg or a busy executor as there were completed DEX legs, hedges, failed CEX legs and refusals. */
  lemma ResultsTellWhatHappened(n: nat, steps: seq<Step>, w: World)
    requires Reaches(StartWorld(n), steps, w)
    ensures CountOf(With(Traded), w.callers) == w.dexCompleted && CountOf(With(Hedged), w.callers) == w.hedges
    ensures CountOf(With(CexFailed), w.callers) == w.cexFailed && CountOf(With(Busy), w.callers) == w.refused
  {
    StartInv(n);
    ReachableInv(StartWorld(n), steps, w);
  }

  /** A caller that is refused changes nothing but its own state, and only the step that ends the trade in progress
      frees the lock. */
  lemma OnlyTheHolderReleases(n: nat, steps: seq<Step>, w: World, s: Step)
    requires Reaches(StartWorld(n), steps, w) && Enabled(w, s)
    ensures w.isLocked && w.callers[s.caller] == Idle ==>
      Next(w, s) == w.(callers := w.callers[s.caller := Finished(Busy)], refused := w.refused + 1)
    ensures w.isLocked && !Next(w, s).isLocked ==>
      && InProgress(w.callers[s.caller]) && Next(w, s).callers[s.caller].Finished?
      && (forall i :: 0 <= i < |w.callers| && i != s.caller ==> !InProgress(w.callers[i]))
    ensures !w.isLocked ==>
      w.callers[s.caller] == Idle && Next(w, s).isLocked && Next(w, s).callers[s.caller] == AwaitCex
  {
    TradesAreExclusiveAndCovered(n, steps, w);
    if InProgress(w.callers[s.caller]) {
      forall i | 0 <= i < |w.callers| && i != s.caller ensures !InProgress(w.callers[i]) {
        assert i < s.caller || s.caller < i;
      }
    }
  }

  // How many answers a trade still waits for, at most.
  ghost function Remaining(p: Progress): nat {
    match p
    case AwaitCex => 3
    case AwaitDex => 2
    case AwaitHedge => 1
    case _ => 0
  }

  // Whatever the next answer for caller c is, it brings its trade closer to the end, and a trade
  // that ends frees the lock.
  ghost predicate Progresses(w: World, c: nat)
    requires c < |w.callers|
  {
    InProgress(w.callers[c]) &&
    forall success ::
      var w' := Next(w, Step(c, success));
      && Remaining(w'.callers[c]) < Remaining(w.callers[c])
      && (w'.callers[c].Finished? ==> !w'.isLocked)
  }

  /** The lock is never stuck: while it is held there is a caller that finishes within three answers and then frees
      it. */
  lemma HeldLockIsReleased(n: nat, steps: seq<Step>, w: World)
    requires Reaches(StartWorld(n), steps, w) && w.isLocked
    ensures exists c: nat :: c < |w.callers| && Progresses(w, c)
  {
    TradesAreExclusiveAndCovered(n, steps, w);
    var c: nat :| c < |w.callers| && InProgress(w.callers[c]);
    assert Progresses(w, c);
  }
}
