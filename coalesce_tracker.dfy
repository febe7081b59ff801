/** SR.CoalesceTracker: decides when repeated snapshot-coalescing of a leaf
    has stopped making progress. The size bound `curSize > 1.2 * minSize` is
    kept exact as `5 * curSize > 6 * minSize`, and the initial minimum
    `float("inf")` is `None`. */
module CoalesceTracking {
  import opened Wrappers

  const GRACE_ITERATIONS: int := 2
  const MAX_ITERATIONS_NO_PROGRESS: nat := 3
  const MAX_ITERATIONS: nat := 10

  /** One entry of `history` (the HISTORY_STRING fields). */
  datatype Iteration = Iteration(its: nat, initSize: int, finSize: int)

  /** What `reason` says after an abort. */
  datatype Reason = NoReason | MaxIterationsExceeded | NoProgress | SizeBump

  datatype TrackerState = TrackerState(
    itsNoProgress: nat,
    its: nat,
    minSize: Option<int>,
    history: seq<Iteration>,
    reason: Reason,
    startSize: Option<int>,
    finishSize: Option<int>,
    graceRemaining: int)

  function Initial(): TrackerState
  {
    TrackerState(0, 0, None, [], NoReason, None, None, GRACE_ITERATIONS)
  }

  /** The bookkeeping every call of abortCoalesce does before judging: count
      the iteration, log it, note the sizes and the smallest size seen. */
  function Record(s: TrackerState, prev: int, cur: int): (t: TrackerState)
    ensures t.its == s.its + 1 && t.history == s.history + [Iteration(s.its + 1, prev, cur)]
    ensures t.minSize.Some? && t.minSize.value <= prev && t.minSize.value <= cur
    ensures s.minSize.Some? ==> t.minSize.value <= s.minSize.value
  {
    var its := s.its + 1;
    var m1 := if s.minSize.None? || cur < s.minSize.value then cur else s.minSize.value;
    var m2 := if prev < m1 then prev else m1;
    s.(its := its,
       history := s.history + [Iteration(its, prev, cur)],
       finishSize := Some(cur),
       startSize := if s.startSize.None? then Some(prev) else s.startSize,
       minSize := Some(m2))
  }

  /** The state after `abortCoalesce(prev, cur)` and its result. */
  function Step(s: TrackerState, prev: int, cur: int): (r: (TrackerState, bool))
    ensures r.0.its == s.its + 1 && r.0.history == s.history + [Iteration(s.its + 1, prev, cur)]
    ensures s.its == 0 ==> !r.1
    ensures prev >= cur ==> !r.1
  {
    Judge(Record(s, prev, cur), prev, cur)
  }

  /** The judging half of abortCoalesce, on the recorded state `t`: the
      first iteration and an iteration that made progress never abort;
      otherwise too many iterations, too many without progress, or a size
      bump past the grace iterations do. */
  function Judge(t: TrackerState, prev: int, cur: int): (r: (TrackerState, bool))
    requires t.minSize.Some?
    ensures r.0.its == t.its && r.0.history == t.history
    ensures t.its == 1 ==> !r.1
    ensures prev >= cur ==> !r.1
  {
    if t.its == 1 then (t, false)          // first iteration: not judged
    else if prev >= cur then (t, false)    // progress made
    else
      var t := t.(itsNoProgress := t.itsNoProgress + 1);
      if t.its > MAX_ITERATIONS then (t.(reason := MaxIterationsExceeded), true)
      else if t.itsNoProgress > MAX_ITERATIONS_NO_PROGRESS then (t.(reason := NoProgress), true)
      else if 5 * cur > 6 * t.minSize.value then
        if t.graceRemaining - 1 == 0 then (t.(graceRemaining := 0, reason := SizeBump), true)
        else (t.(graceRemaining := t.graceRemaining - 1), false)
      else (t, false)
  }

  /** The smallest size (before or after) recorded in a non-empty history. */
  function MinSeen(h: seq<Iteration>): int
    requires h != []
  {
    var last := h[|h| - 1];
    var m := if last.finSize < last.initSize then last.finSize else last.initSize;
    if |h| == 1 then m
    else var rest := MinSeen(h[..|h| - 1]); if rest < m then rest else m
  }

  lemma {:induction false} MinSeenIsMinimum(h: seq<Iteration>)
    requires h != []
    ensures forall i :: 0 <= i < |h| ==> MinSeen(h) <= h[i].initSize && MinSeen(h) <= h[i].finSize
    ensures exists i :: 0 <= i < |h| && (MinSeen(h) == h[i].initSize || MinSeen(h) == h[i].finSize)
  {
    if |h| > 1 {
      var front := h[..|h| - 1];
      MinSeenIsMinimum(front);
      assert forall i :: 0 <= i < |front| ==> front[i] == h[i];
      var i :| 0 <= i < |front| && (MinSeen(front) == front[i].initSize || MinSeen(front) == front[i].finSize);
      assert h[i] == front[i];
    }
  }

  /** Call i (from 0) of a history made no progress: it was not the first
      call and the size grew. */
  predicate NoProgressAt(h: seq<Iteration>, i: nat)
    requires i < |h|
  {
    i >= 1 && h[i].initSize < h[i].finSize
  }

  /** The number of calls without progress in a history. */
  function NoProgressCount(h: seq<Iteration>): nat
  {
    if h == [] then 0
    else NoProgressCount(h[..|h| - 1]) + (if NoProgressAt(h, |h| - 1) then 1 else 0)
  }

  /** Call i used up a grace iteration: it made no progress, neither limit
      had been passed by then, and its size was more than 1.2 times the
      smallest size seen up to and including it. */
  predicate BumpAt(h: seq<Iteration>, i: nat)
    requires i < |h|
  {
    && NoProgressAt(h, i)
    && i + 1 <= MAX_ITERATIONS
    && NoProgressCount(h[..i + 1]) <= MAX_ITERATIONS_NO_PROGRESS
    && 5 * h[i].finSize > 6 * MinSeen(h[..i + 1])
  }

  /** The number of size bumps in a history. */
  function Bumps(h: seq<Iteration>): nat
  {
    if h == [] then 0
    else Bumps(h[..|h| - 1]) + (if BumpAt(h, |h| - 1) then 1 else 0)
  }

  /** What the recorded part of every reachable tracker satisfies: one
      history entry per call, numbered from 1; `minSize` is the least size
      seen; `startSize` and `finishSize` are the first and latest sizes. */
  ghost predicate Logged(s: TrackerState)
  {
    && |s.history| == s.its
    && (forall i :: 0 <= i < |s.history| ==> s.history[i].its == i + 1)
    && (s.its == 0 ==> s.minSize.None? && s.startSize.None? && s.finishSize.None?)
    && (s.its > 0 ==>
          && s.minSize == Some(MinSeen(s.history))
          && s.startSize == Some(s.history[0].initSize)
          && s.finishSize == Some(s.history[s.its - 1].finSize))
  }

  /** What every reachable tracker satisfies: besides `Logged`, the calls
      without progress and the grace iterations used are those the history
      shows. */
  ghost predicate Inv(s: TrackerState)
  {
    && Logged(s)
    && s.itsNoProgress == NoProgressCount(s.history)
    && s.graceRemaining == GRACE_ITERATIONS - Bumps(s.history)
  }

  lemma InitialInv()
    ensures Inv(Initial())
  {
  }

  lemma StepKeepsInv(s: TrackerState, prev: int, cur: int)
    requires Inv(s)
    ensures Inv(Step(s, prev, cur).0)
  {
    RecordKeepsLogged(s, prev, cur);
    JudgeKeepsInv(Record(s, prev, cur), prev, cur);
  }

  /** Recording a call keeps the log exact and leaves the counters alone. */
  lemma RecordKeepsLogged(s: TrackerState, prev: int, cur: int)
    requires Logged(s)
    ensures var t := Record(s, prev, cur);
            && Logged(t) && t.its >= 1
            && t.history[t.its - 1] == Iteration(t.its, prev, cur)
            && t.history[..t.its - 1] == s.history
            && t.itsNoProgress == s.itsNoProgress && t.graceRemaining == s.graceRemaining
  {
    var t := Record(s, prev, cur);
    assert t.history[..|t.history| - 1] == s.history;
    if s.its > 0 {
      assert t.history[0] == s.history[0];
    }
  }

  /** Judging the latest call counts it exactly as NoProgressAt and BumpAt
      do. */
  lemma JudgeKeepsInv(t: TrackerState, prev: int, cur: int)
    requires Logged(t) && t.its >= 1 && t.history[t.its - 1] == Iteration(t.its, prev, cur)
    requires t.itsNoProgress == NoProgressCount(t.history[..t.its - 1])
    requires t.graceRemaining == GRACE_ITERATIONS - Bumps(t.history[..t.its - 1])
    ensures Inv(Judge(t, prev, cur).0)
  {
    var h := t.history;
    assert h[..|h|] == h;
    assert NoProgressCount(h) == t.itsNoProgress + (if NoProgressAt(h, |h| - 1) then 1 else 0);
    assert Bumps(h) == GRACE_ITERATIONS - t.graceRemaining + (if BumpAt(h, |h| - 1) then 1 else 0);
  }

  /** On a call where the size grew (and not the first call), the tracker
      aborts exactly when more than MAX_ITERATIONS calls were made, when it
      is the fourth call without progress, or when the size is more than 1.2
      times the minimum for the second time. */
  lemma AbortOnGrowth(s: TrackerState, prev: int, cur: int)
    requires Inv(s) && s.its >= 1 && prev < cur
    ensures var h := s.history + [Iteration(s.its + 1, prev, cur)];
            Step(s, prev, cur).1 <==>
              || s.its + 1 > MAX_ITERATIONS
              || NoProgressCount(s.history) + 1 > MAX_ITERATIONS_NO_PROGRESS
              || (5 * cur > 6 * MinSeen(h) && Bumps(s.history) == 1)
  {
    RecordKeepsLogged(s, prev, cur);
  }

  /** A tracker that need not abort yet: at most MAX_ITERATIONS_NO_PROGRESS
      calls without progress so far and grace left. */
  predicate Calm(s: TrackerState)
  {
    s.itsNoProgress <= MAX_ITERATIONS_NO_PROGRESS && s.graceRemaining >= 1
  }

  lemma StepKeepsCalm(s: TrackerState, prev: int, cur: int)
    requires Calm(s) && !Step(s, prev, cur).1
    ensures Calm(Step(s, prev, cur).0)
  {
  }

  /** Feeds the calls (prevSize, curSize) one by one until one aborts. */
  function Run(s: TrackerState, calls: seq<(int, int)>): (TrackerState, bool)
    decreases |calls|
  {
    if calls == [] then (s, false)
    else
      var r := Step(s, calls[0].0, calls[0].1);
      if r.1 then r else Run(r.0, calls[1..])
  }

  /** A growing call that does not abort counts as a call without progress,
      except the first one. */
  lemma GrowingStep(s: TrackerState, prev: int, cur: int)
    requires prev < cur && !Step(s, prev, cur).1
    ensures Step(s, prev, cur).0.its >= 1
    ensures Step(s, prev, cur).0.itsNoProgress == s.itsNoProgress + (if s.its == 0 then 0 else 1)
  {
  }

  predicate Growing(calls: seq<(int, int)>)
  {
    forall i :: 0 <= i < |calls| ==> calls[i].0 < calls[i].1
  }

  /** A leaf whose size keeps growing is given up on: from a fresh or calm
      tracker (reachable or not), at most five growing calls (one unjudged
      first call and four counted ones) are made before `abortCoalesce`
      returns true. */
  lemma {:induction false} GrowingRunAborts(s: TrackerState, calls: seq<(int, int)>)
    requires Calm(s) && Growing(calls)
    requires |calls| >= (if s.its == 0 then 1 else 0) + MAX_ITERATIONS_NO_PROGRESS + 1 - s.itsNoProgress
    ensures Run(s, calls).1
    decreases |calls|
  {
    var r := Step(s, calls[0].0, calls[0].1);
    if !r.1 {
      StepKeepsCalm(s, calls[0].0, calls[0].1);
      GrowingStep(s, calls[0].0, calls[0].1);
      assert Run(s, calls) == Run(r.0, calls[1..]);
      assert Growing(calls[1..]) by {
        forall i | 0 <= i < |calls[1..]| ensures calls[1..][i].0 < calls[1..][i].1 {
          assert calls[1..][i] == calls[i + 1];
        }
      }
      GrowingRunAborts(r.0, calls[1..]);
    }
  }

  /** The tracker object: `abortCoalesce` updates its fields in place. */
  class CoalesceTracker {
    var itsNoProgress: nat
    var its: nat
    var minSize: Option<int>
    var history: seq<Iteration>
    var reason: Reason
    var startSize: Option<int>
    var finishSize: Option<int>
    var graceRemaining: int

    function State(): TrackerState
      reads this
    {
      TrackerState(itsNoProgress, its, minSize, history, reason, startSize, finishSize, graceRemaining)
    }

    constructor ()
      ensures State() == Initial()
    {
      itsNoProgress := 0;
      its := 0;
      minSize := None;
      history := [];
      reason := NoReason;
      startSize := None;
      finishSize := None;
      graceRemaining := GRACE_ITERATIONS;
    }

    method AbortCoalesce(prevSize: int, curSize: int) returns (abort: bool)
      modifies this
      ensures (State(), abort) == Step(old(State()), prevSize, curSize)
    {
      ghost var s0 := State();
      its := its + 1;
      history := history + [Iteration(its, prevSize, curSize)];
      finishSize := Some(curSize);
      if startSize.None? {
        startSize := Some(prevSize);
      }
      if minSize.None? || curSize < minSize.value {
        minSize := Some(curSize);
      }
      if prevSize < minSize.value {
        minSize := Some(prevSize);
      }
      assert State() == Record(s0, prevSize, curSize);
      abort := JudgeIteration(prevSize, curSize);
    }

    /** The judging half of abortCoalesce. */
    method JudgeIteration(prevSize: int, curSize: int) returns (abort: bool)
      requires minSize.Some?
      modifies this
      ensures (State(), abort) == Judge(old(State()), prevSize, curSize)
    {
      if its == 1 {
        return false;
      }
      if prevSize < curSize {
        itsNoProgress := itsNoProgress + 1;
      } else {
        return false;
      }
      if its > MAX_ITERATIONS {
        reason := MaxIterationsExceeded;
        return true;
      }
      if itsNoProgress > MAX_ITERATIONS_NO_PROGRESS {
        reason := NoProgress;
        return true;
      }
      if 5 * curSize > 6 * minSize.value {
        graceRemaining := graceRemaining - 1;
        if graceRemaining == 0 {
          reason := SizeBump;
          return true;
        }
      }
      return false;
    }
  }
}
