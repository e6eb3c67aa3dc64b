/** Runs of the strand: safety in every reachable state, no deadlock, and termination at rest. */
module StrandProgress {
  import opened Strands
  import opened StrandProofs

  // ---------------------------------------------------------------- runs

  /** `sched` names the thread that moves at each step. */
  ghost predicate Runs(s: Sys, sched: seq<ThreadId>)
    decreases |sched|
  {
    sched == [] || (IsThread(s, sched[0]) && CanStep(s, sched[0]) && Runs(Next(s, sched[0]), sched[1..]))
  }

  ghost function After(s: Sys, sched: seq<ThreadId>): Sys
    requires Runs(s, sched)
    decreases |sched|
  {
    if sched == [] then s else After(Next(s, sched[0]), sched[1..])
  }

  lemma {:induction false} RunInv(s: Sys, sched: seq<ThreadId>)
    requires Inv(s) && Runs(s, sched)
    ensures Inv(After(s, sched)) && After(s, sched).workers == s.workers && |After(s, sched).threads| == |s.threads|
    decreases |sched|
  {
    if sched != [] {
      StepInv(s, sched[0]);
      NextChangesOne(s, sched[0]);
      RunInv(Next(s, sched[0]), sched[1..]);
    }
  }

  /** A thread inside a flush, an inline dispatch or a try_lock scope. */
  predicate Inside(st: Stack) {
    st.On? && (st.top.Inline? || st.top.Locked? || st.top.Flush? || Inside(st.below))
  }

  lemma {:induction false} InsideIsDepth(st: Stack)
    ensures Depth(st) >= 0 && (Inside(st) <==> Depth(st) > 0)
  {
    if st.On? {
      InsideIsDepth(st.below);
    }
  }

  /** What holds of any two threads in every reachable state. */
  ghost predicate Safe(s: Sys, t: ThreadId, u: ThreadId)
    requires IsThread(s, t) && IsThread(s, u)
  {
    // mutual exclusion, and the owner list is the owner's nesting depth
    && (Inside(s.threads[t]) && Inside(s.threads[u]) ==> t == u)
    && (Inside(s.threads[t]) ==> |s.sh.owner| == Depth(s.threads[t]) && forall o :: o in s.sh.owner ==> o == t)
    && (s.sh.owner != [] ==> exists v :: 0 <= v < |s.threads| && Inside(s.threads[v]))
    // queued tasks run once each, in push order; each thread's pushes follow its program order
    && s.executed + s.sh.tasks == s.enqueued
    && By(s.begun, t) == By(s.enqueued, t) + Carried(s.threads[t])
    // the counter covers the queue and what threads hold between a section and the queue
    && s.sh.taskCount == |s.sh.tasks| + Sum(InHand, s.threads)
    // no lost wakeup
    && (s.sh.posted <==> s.sh.taskCount > 0)
    && (s.sh.taskCount > 0 ==>
          s.tokens > 0 || s.sh.owner != [] || exists v :: 0 <= v < |s.threads| && Carries(s.threads[v]))
  }

  lemma InvSafe(s: Sys, t: ThreadId, u: ThreadId)
    requires Inv(s) && IsThread(s, t) && IsThread(s, u)
    ensures Safe(s, t, u)
  {
    assert ThreadOk(s.sh, t, s.threads[t]) && ThreadOk(s.sh, u, s.threads[u]);
    InsideIsDepth(s.threads[t]);
    InsideIsDepth(s.threads[u]);
    if s.sh.owner != [] {
      var v := s.sh.owner[0];
      assert ThreadOk(s.sh, v, s.threads[v]);
      InsideIsDepth(s.threads[v]);
    }
  }

  lemma ReachableSafe(s0: Sys, sched: seq<ThreadId>, t: ThreadId, u: ThreadId)
    requires Init(s0) && Runs(s0, sched) && IsThread(s0, t) && IsThread(s0, u)
    ensures IsThread(After(s0, sched), t) && IsThread(After(s0, sched), u) && Safe(After(s0, sched), t, u)
  {
    InitInv(s0);
    RunInv(s0, sched);
    InvSafe(After(s0, sched), t, u);
  }

  /** The code's assertions hold wherever a thread is about to leave the strand. */
  lemma AssertionsHold(s: Sys, t: ThreadId)
    requires Inv(s) && IsThread(s, t) && s.threads[t].On?
    requires s.threads[t].top.Inline? || s.threads[t].top.Locked? || s.threads[t].top.Flush?
    ensures s.sh.owner != [] && s.sh.owner[|s.sh.owner| - 1] == t
  {
    assert ThreadOk(s.sh, t, s.threads[t]);
    SettledShaped(s.threads[t].below);
    StackFacts(s.threads[t].below);
  }

  // ---------------------------------------------------------------- no deadlock

  ghost predicate AtRest(s: Sys) {
    && s.sh == Shared([], 0, false, []) && s.tokens == 0
    && forall t :: 0 <= t < |s.threads| ==> s.threads[t] == Idle
  }

  /** A thread that cannot move is idle, or polls an empty queue inside a flush. */
  lemma StuckShape(s: Sys, t: ThreadId)
    requires Inv(s) && IsThread(s, t) && !CanStep(s, t) && s.threads[t] != Idle
    ensures s.threads[t].top.Flush? && s.threads[t].top.popped < s.threads[t].top.quota && s.sh.tasks == []
    ensures s.threads[t].below == Idle && Depth(s.threads[t]) == 1
  {
    assert ThreadOk(s.sh, t, s.threads[t]);
    if s.threads[t].top.Inline? || s.threads[t].top.Locked? || s.threads[t].top.Flush? {
      AssertionsHold(s, t);
    }
  }

  /** A busy thread means some thread can move: what a flush still waits for is in another thread's hands. */
  lemma BusyMoves(s: Sys, t: ThreadId)
    requires Inv(s) && IsThread(s, t) && s.threads[t] != Idle
    ensures exists u :: 0 <= u < |s.threads| && CanStep(s, u)
  {
    if forall u :: 0 <= u < |s.threads| ==> !CanStep(s, u) {
      StuckShape(s, t);
      assert ThreadOk(s.sh, t, s.threads[t]);
      forall u | 0 <= u < |s.threads| && u != t
        ensures InHand(s.threads[u]) == 0
      {
        OthersIdle(s, t, u);
        if s.threads[u] != Idle {
          StuckShape(s, u);
        }
      }
      SumOfOne(InHand, s.threads, t);
      assert false;
    }
  }

  lemma OwnerIsBusy(s: Sys)
    requires Inv(s) && s.sh.owner != []
    ensures exists t :: 0 <= t < |s.threads| && s.threads[t] != Idle
  {
    assert ThreadOk(s.sh, s.sh.owner[0], s.threads[s.sh.owner[0]]);
  }

  lemma NoDeadlock(s: Sys)
    requires Inv(s) && 0 < s.workers <= |s.threads|
    ensures AtRest(s) || exists t :: 0 <= t < |s.threads| && CanStep(s, t)
  {
    if t :| 0 <= t < |s.threads| && s.threads[t] != Idle {
      BusyMoves(s, t);
    } else {
      SumOfNone(InHand, s.threads);
      if s.sh.owner == [] && s.tokens > 0 {
        assert CanStep(s, 0);
      } else if s.sh.owner != [] {
        OwnerIsBusy(s);
      }
    }
  }

  // ---------------------------------------------------------------- termination

  function OpWeight(op: Op): nat
    decreases op
  {
    match op
    case Post(task) => 11 + BodyWeight(task.body)
    case Dispatch(task) => 12 + BodyWeight(task.body)
    case TryLock(body) => 6 + BodyWeight(body)
    case Guard(_, body) => 2 + BodyWeight(body)
  }

  function BodyWeight(ops: seq<Op>): nat
    decreases ops
  {
    if ops == [] then 1 else OpWeight(ops[0]) + BodyWeight(ops[1..])
  }

  function TaskWeight(e: Entry): nat { 1 + BodyWeight(e.task.body) }

  function FrameWeight(f: Frame): int {
    match f
    case Run(rest) => BodyWeight(rest)
    case Guarded(_) => 1
    case Inline => 5
    case Locked => 5
    case Entering => 2
    case Flush(_, _) => 1
    case Emplacing(e, owes) => 1 + TaskWeight(e) + (if owes then 4 else 0)
    case Owing => 4
  }

  function StackWeight(st: Stack): int {
    match st
    case Idle => 0
    case On(f, below) => FrameWeight(f) + StackWeight(below)
  }

  function QueueWeight(es: seq<Entry>): int {
    if es == [] then 0 else QueueWeight(es[..|es| - 1]) + TaskWeight(es[|es| - 1])
  }

  lemma {:induction false} QueueWeightHead(es: seq<Entry>)
    requires es != []
    ensures QueueWeight(es) == TaskWeight(es[0]) + QueueWeight(es[1..])
  {
    var n := |es| - 1;
    if n > 0 {
      QueueWeightHead(es[..n]);
      assert es[1..][..n - 1] == es[..n][1..];
    }
  }

  lemma {:induction false} WeightsNonNegative(s: Sys)
    ensures Measure(s) >= 0
  {
    SumNonNegative(s.threads);
    QueueNonNegative(s.sh.tasks);
  }

  lemma {:induction false} StackNonNegative(st: Stack)
    ensures StackWeight(st) >= 0
  {
    if st.On? { StackNonNegative(st.below); }
  }

  lemma {:induction false} SumNonNegative(ts: seq<Stack>)
    ensures Sum(StackWeight, ts) >= 0
  {
    if ts != [] {
      SumNonNegative(ts[..|ts| - 1]);
      StackNonNegative(ts[|ts| - 1]);
    }
  }

  lemma {:induction false} QueueNonNegative(es: seq<Entry>)
    ensures QueueWeight(es) >= 0
  {
    if es != [] { QueueNonNegative(es[..|es| - 1]); }
  }

  /** Tasks counted after the running flush took its quota will make it post one more job. */
  ghost function LateArrivals(s: Sys): int {
    if Sum(Flushes, s.threads) > 0 && s.sh.taskCount > Sum(Quota, s.threads) then 4 else 0
  }

  ghost function Work(s: Sys): int {
    3 * s.tokens + Sum(StackWeight, s.threads) + QueueWeight(s.sh.tasks)
  }

  /** Bounds the number of steps left. */
  ghost function Measure(s: Sys): int { Work(s) + LateArrivals(s) }

  /** Work without the other threads' share. */
  ghost function OwnWork(s: Sys, t: ThreadId): int
    requires IsThread(s, t)
  {
    3 * s.tokens + StackWeight(s.threads[t]) + QueueWeight(s.sh.tasks)
  }

  lemma OpWork(s: Sys, t: ThreadId, op: Op, rest: seq<Op>, below: Stack)
    requires IsThread(s, t) && s.threads[t] == On(Run([op] + rest), below)
    ensures var s' := NextOp(s, t, op, rest, below);
            && OwnWork(s', t) + (if op.Post? then 5 else 1) <= OwnWork(s, t)
            && Flushes(s'.threads[t]) == Flushes(s.threads[t]) && Quota(s'.threads[t]) == Quota(s.threads[t])
            && s'.sh.taskCount == s.sh.taskCount + (if op.Post? then 1 else 0)
  {
    var base := On(Run(rest), below);
    assert ([op] + rest)[1..] == rest;
    assert StackWeight(s.threads[t]) == OpWeight(op) + StackWeight(base);
    match op
    case Post(task) =>
    case Dispatch(task) =>
      assert ([Post(task)] + rest)[1..] == rest;
      assert BodyWeight([Post(task)] + rest) == OpWeight(Post(task)) + BodyWeight(rest);
      var inner := On(Inline, base);
      assert StackWeight(inner) == 5 + StackWeight(base);
      assert StackWeight(On(Run(task.body), inner)) == BodyWeight(task.body) + StackWeight(inner);
    case TryLock(body) =>
      assert StackWeight(On(Locked, base)) == 5 + StackWeight(base);
    case Guard(self, body) =>
      assert StackWeight(On(Guarded(self), base)) == 1 + StackWeight(base);
  }

  predicate FlushBoundary(s: Sys, t: ThreadId)
    requires IsThread(s, t)
  {
    s.threads[t].On? && (s.threads[t].top.Entering? ||
                         (s.threads[t].top.Flush? && s.threads[t].top.popped >= s.threads[t].top.quota))
  }

  /** Away from the two ends of a flush, a step loses work, and four more when it counts a task. */
  lemma StepWork(s: Sys, t: ThreadId)
    requires IsThread(s, t) && CanStep(s, t) && !FlushBoundary(s, t)
    ensures var s' := Next(s, t);
            && OwnWork(s', t) + 1 + 4 * (s'.sh.taskCount - s.sh.taskCount) <= OwnWork(s, t)
            && Flushes(s'.threads[t]) == Flushes(s.threads[t]) && Quota(s'.threads[t]) == Quota(s.threads[t])
            && s.sh.taskCount <= s'.sh.taskCount <= s.sh.taskCount + 1
  {
    match s.threads[t] {
      case Idle =>
      case On(Run(ops), below) =>
        if ops != [] {
          assert [ops[0]] + ops[1..] == ops;
          OpWork(s, t, ops[0], ops[1..], below);
        }
      case On(Flush(quota, popped), below) =>
        QueueWeightHead(s.sh.tasks);
      case On(Emplacing(e, owes), below) =>
        assert (s.sh.tasks + [e])[..|s.sh.tasks|] == s.sh.tasks;
      case _ =>
    }
  }

  lemma OthersOutside(s: Sys, t: ThreadId)
    requires Exclusion(s) && IsThread(s, t) && Depth(s.threads[t]) > 0
    ensures Sum(Flushes, s.threads) == Flushes(s.threads[t]) && Sum(Quota, s.threads) == Quota(s.threads[t])
  {
    forall u | 0 <= u < |s.threads| && u != t
      ensures Flushes(s.threads[u]) == 0 && Quota(s.threads[u]) == 0
    {
      OthersIdle(s, t, u);
    }
    SumOfOne(Flushes, s.threads, t);
    SumOfOne(Quota, s.threads, t);
  }

  /** What the two ends of a flush do to the measured parts. */
  lemma BoundaryMoves(s: Sys, t: ThreadId)
    requires IsThread(s, t) && CanStep(s, t) && Shaped(s.threads[t]) && FlushBoundary(s, t)
    ensures var st, s' := s.threads[t], Next(s, t);
            && s'.tokens == s.tokens && s'.sh.tasks == s.sh.tasks
            && (st.top.Entering? ==> && s'.sh.taskCount == s.sh.taskCount
                                     && s'.threads[t] in {Idle, On(Flush(s.sh.taskCount, 0), Idle)})
            && (st.top.Flush? ==> && s'.sh.taskCount == s.sh.taskCount - st.top.quota
                                  && s'.threads[t] == if s'.sh.taskCount > 0 then On(Owing, Idle) else Idle)
    ensures s.threads[t] in {On(Entering, Idle), On(s.threads[t].top, Idle)}
  {}

  lemma EnteringDecreases(s: Sys, t: ThreadId)
    requires IsThread(s, t) && CanStep(s, t) && Inv(s) && s.threads[t].On? && s.threads[t].top.Entering?
    ensures Measure(Next(s, t)) < Measure(s)
  {
    var s' := Next(s, t);
    assert Shaped(s.threads[t]) by { assert ThreadOk(s.sh, t, s.threads[t]); }
    BoundaryMoves(s, t);
    StepExclusion(s, t);
    NextChangesOne(s, t);
    hide Next;
    hide Inv;
    hide Exclusion;
    SumUpdate(StackWeight, s.threads, t, s'.threads[t]);
    if s'.threads[t] == Idle {
      SumUpdate(Flushes, s.threads, t, Idle);
      SumUpdate(Quota, s.threads, t, Idle);
    } else {
      OthersOutside(s', t);
    }
  }

  lemma FlushEndDecreases(s: Sys, t: ThreadId)
    requires IsThread(s, t) && CanStep(s, t) && Inv(s)
    requires s.threads[t].On? && s.threads[t].top.Flush? && s.threads[t].top.popped >= s.threads[t].top.quota
    ensures Measure(Next(s, t)) < Measure(s)
  {
    var s' := Next(s, t);
    assert Shaped(s.threads[t]) by { assert ThreadOk(s.sh, t, s.threads[t]); }
    BoundaryMoves(s, t);
    NextChangesOne(s, t);
    OthersOutside(s, t);
    hide Next;
    hide Inv;
    hide Exclusion;
    SumUpdate(StackWeight, s.threads, t, s'.threads[t]);
    SumUpdate(Flushes, s.threads, t, s'.threads[t]);
  }

  /** Every step of every thread uses up some of the measure. */
  lemma StepDecreases(s: Sys, t: ThreadId)
    requires IsThread(s, t) && CanStep(s, t) && Inv(s)
    ensures Measure(Next(s, t)) < Measure(s)
  {
    if FlushBoundary(s, t) {
      if s.threads[t].top.Entering? {
        EnteringDecreases(s, t);
      } else {
        FlushEndDecreases(s, t);
      }
    } else {
      var s' := Next(s, t);
      StepWork(s, t);
      NextChangesOne(s, t);
      SumUpdate(StackWeight, s.threads, t, s'.threads[t]);
      SumUpdate(Flushes, s.threads, t, s'.threads[t]);
      SumUpdate(Quota, s.threads, t, s'.threads[t]);
    }
  }

  lemma {:induction false} RunIsBounded(s: Sys, sched: seq<ThreadId>)
    requires Inv(s) && Runs(s, sched)
    ensures |sched| + Measure(After(s, sched)) <= Measure(s)
    decreases |sched|
  {
    if sched != [] {
      StepInv(s, sched[0]);
      StepDecreases(s, sched[0]);
      RunIsBounded(Next(s, sched[0]), sched[1..]);
    }
  }

  /** Whatever the scheduler does, it runs out of steps within `Measure(s0)`, and when it does the strand is at
      rest, every posted task has been pushed, and every pushed task has been run, in order. */
  lemma EveryRunDrains(s0: Sys, sched: seq<ThreadId>)
    requires Init(s0) && Runs(s0, sched)
    ensures |sched| <= Measure(s0)
    ensures var s := After(s0, sched);
            (forall t :: 0 <= t < |s.threads| ==> !CanStep(s, t)) ==>
              && AtRest(s) && s.executed == s.enqueued
              && forall t :: 0 <= t < |s.threads| ==> By(s.executed, t) == By(s.begun, t)
  {
    InitInv(s0);
    RunInv(s0, sched);
    RunIsBounded(s0, sched);
    WeightsNonNegative(After(s0, sched));
    NoDeadlock(After(s0, sched));
  }
}
