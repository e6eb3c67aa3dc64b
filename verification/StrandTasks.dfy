/** No task is lost or run twice: what the scripts name, at any depth, is executed, run inline, still to come, or was in
    the scope of a try_lock that failed. */
module StrandTasks {
  import opened Strands
  import opened StrandProofs
  import opened StrandProgress

  // ---------------------------------------------------------------- how often a task is named

  function InOp(x: Task, op: Op): nat
    decreases op, 0
  {
    match op
    case Post(task) => InTask(x, task)
    case Dispatch(task) => InTask(x, task)
    case TryLock(body) => InOps(x, body)
    case Guard(_, body) => InOps(x, body)
  }

  function InOps(x: Task, ops: seq<Op>): nat
    decreases ops, 1
  {
    if ops == [] then 0 else InOp(x, ops[0]) + InOps(x, ops[1..])
  }

  /** The task itself and all that its body names. */
  function InTask(x: Task, task: Task): nat
    decreases task, 2
  {
    (if task == x then 1 else 0) + InOps(x, task.body)
  }

  function InStack(x: Task, st: Stack): int {
    match st
    case Idle => 0
    case On(Run(rest), below) => InOps(x, rest) + InStack(x, below)
    case On(Emplacing(e, _), below) => InTask(x, e.task) + InStack(x, below)
    case On(_, below) => InStack(x, below)
  }

  function InQueue(x: Task, es: seq<Entry>): int {
    if es == [] then 0 else InTask(x, es[0].task) + InQueue(x, es[1..])
  }

  function Times(x: Task, es: seq<Entry>): int {
    if es == [] then 0 else Times(x, es[..|es| - 1]) + if es[|es| - 1].task == x then 1 else 0
  }

  ghost function Ahead(s: Sys, x: Task): int {
    Sum(st => InStack(x, st), s.threads) + InQueue(x, s.sh.tasks)
  }

  /** Executed from the queue or run inline. */
  function Done(s: Sys, x: Task): int { Times(x, s.executed) + Times(x, s.inlined) }

  /** What a step passes over: the scope of a try_lock on a strand that is owned. */
  function Skipped(s: Sys, t: ThreadId, x: Task): nat
    requires IsThread(s, t)
  {
    match s.threads[t]
    case On(Run(ops), _) => if ops != [] && ops[0].TryLock? && s.sh.owner != [] then InOps(x, ops[0].body) else 0
    case _ => 0
  }

  ghost function SkippedIn(s: Sys, sched: seq<ThreadId>, x: Task): nat
    requires Runs(s, sched)
    decreases |sched|
  {
    if sched == [] then 0 else Skipped(s, sched[0], x) + SkippedIn(Next(s, sched[0]), sched[1..], x)
  }

  // ---------------------------------------------------------------- every step keeps count

  lemma {:induction false} InQueueSnoc(x: Task, es: seq<Entry>, e: Entry)
    ensures InQueue(x, es + [e]) == InQueue(x, es) + InTask(x, e.task)
  {
    hide InTask;
    if es != [] {
      assert (es + [e])[1..] == es[1..] + [e];
      InQueueSnoc(x, es[1..], e);
    }
  }

  lemma TimesSnoc(x: Task, es: seq<Entry>, e: Entry)
    ensures Times(x, es + [e]) == Times(x, es) + if e.task == x then 1 else 0
  {
    assert (es + [e])[..|es|] == es;
  }

  lemma InOpsHead(x: Task, op: Op, rest: seq<Op>)
    ensures InOps(x, [op] + rest) == InOp(x, op) + InOps(x, rest)
  {
    assert ([op] + rest)[1..] == rest;
  }

  /** What the thread that moves has done, has ahead and passes over. */
  ghost predicate Balanced(s: Sys, s': Sys, t: ThreadId, x: Task)
    requires IsThread(s, t) && IsThread(s', t)
  {
    Done(s', x) + InStack(x, s'.threads[t]) + InQueue(x, s'.sh.tasks) + Skipped(s, t, x) ==
    Done(s, x) + InStack(x, s.threads[t]) + InQueue(x, s.sh.tasks)
  }

  lemma OpBalanced(s: Sys, t: ThreadId, op: Op, rest: seq<Op>, below: Stack, x: Task)
    requires IsThread(s, t) && s.threads[t] == On(Run([op] + rest), below)
    ensures Balanced(s, NextOp(s, t, op, rest, below), t, x)
  {
    hide Times;
    hide InQueue;
    InOpsHead(x, op, rest);
    assert InStack(x, On(Run(rest), below)) == InOps(x, rest) + InStack(x, below);
    match op
    case Post(task) =>
    case Dispatch(task) =>
      TimesSnoc(x, s.inlined, Entry(t, task));
      InOpsHead(x, Post(task), rest);
      assert InStack(x, On(Inline, On(Run(rest), below))) == InStack(x, On(Run(rest), below));
    case TryLock(body) =>
      assert InStack(x, On(Locked, On(Run(rest), below))) == InStack(x, On(Run(rest), below));
    case Guard(self, body) =>
      assert InStack(x, On(Guarded(self), On(Run(rest), below))) == InStack(x, On(Run(rest), below));
  }

  lemma StepBalanced(s: Sys, t: ThreadId, x: Task)
    requires IsThread(s, t) && CanStep(s, t)
    ensures Balanced(s, Next(s, t), t, x)
  {
    match s.threads[t] {
      case Idle =>
      case On(Run(ops), below) =>
        if ops != [] {
          assert [ops[0]] + ops[1..] == ops;
          OpBalanced(s, t, ops[0], ops[1..], below, x);
        }
      case On(Flush(quota, popped), below) =>
        if popped < quota {
          TimesSnoc(x, s.executed, s.sh.tasks[0]);
        }
      case On(Emplacing(e, owes), below) =>
        InQueueSnoc(x, s.sh.tasks, e);
      case On(_, below) =>
    }
  }

  lemma StepKeepsTasks(s: Sys, t: ThreadId, x: Task)
    requires IsThread(s, t) && CanStep(s, t)
    ensures Done(Next(s, t), x) + Ahead(Next(s, t), x) + Skipped(s, t, x) == Done(s, x) + Ahead(s, x)
  {
    StepBalanced(s, t, x);
    NextChangesOne(s, t);
    SumUpdate(st => InStack(x, st), s.threads, t, Next(s, t).threads[t]);
  }

  // ---------------------------------------------------------------- whole runs

  /** At every moment of every run: done, to come and passed over are together what the scripts named at the start. */
  lemma {:induction false} NothingLost(s: Sys, sched: seq<ThreadId>, x: Task)
    requires Runs(s, sched)
    ensures Done(After(s, sched), x) + Ahead(After(s, sched), x) + SkippedIn(s, sched, x) == Done(s, x) + Ahead(s, x)
    decreases |sched|
  {
    hide Ahead;
    hide Done;
    if sched != [] {
      StepKeepsTasks(s, sched[0], x);
      NothingLost(Next(s, sched[0]), sched[1..], x);
    }
  }

  // ---------------------------------------------------------------- scripts that do not try to lock

  predicate LockFree(ops: seq<Op>)
    decreases ops, 1
  {
    ops == [] || (LockFreeOp(ops[0]) && LockFree(ops[1..]))
  }

  predicate LockFreeOp(op: Op)
    decreases op, 0
  {
    match op
    case Post(task) => LockFree(task.body)
    case Dispatch(task) => LockFree(task.body)
    case TryLock(_) => false
    case Guard(_, body) => LockFree(body)
  }

  predicate LockFreeStack(st: Stack) {
    match st
    case Idle => true
    case On(Run(rest), below) => LockFree(rest) && LockFreeStack(below)
    case On(Emplacing(e, _), below) => LockFree(e.task.body) && LockFreeStack(below)
    case On(_, below) => LockFreeStack(below)
  }

  ghost predicate AllLockFree(s: Sys) {
    && (forall t :: 0 <= t < |s.threads| ==> LockFreeStack(s.threads[t]))
    && forall e :: e in s.sh.tasks ==> LockFree(e.task.body)
  }

  lemma OpLockFree(s: Sys, t: ThreadId, op: Op, rest: seq<Op>, below: Stack)
    requires IsThread(s, t) && s.threads[t] == On(Run([op] + rest), below) && LockFreeStack(s.threads[t])
    ensures !op.TryLock? && LockFreeStack(NextOp(s, t, op, rest, below).threads[t])
    ensures NextOp(s, t, op, rest, below).sh.tasks == s.sh.tasks
  {
    assert ([op] + rest)[1..] == rest && ([op] + rest)[0] == op;
    var base := On(Run(rest), below);
    assert LockFreeOp(op) && LockFreeStack(base);
    match op
    case Post(task) =>
    case Dispatch(task) =>
      assert ([Post(task)] + rest)[1..] == rest;
      assert LockFreeStack(On(Inline, base));
    case Guard(self, body) =>
      assert LockFreeStack(On(Guarded(self), base));
  }

  lemma StepLockFree(s: Sys, t: ThreadId, x: Task)
    requires IsThread(s, t) && CanStep(s, t) && AllLockFree(s)
    ensures AllLockFree(Next(s, t)) && Skipped(s, t, x) == 0
  {
    NextChangesOne(s, t);
    assert LockFreeStack(s.threads[t]);
    match s.threads[t] {
      case Idle =>
      case On(Run(ops), below) =>
        if ops != [] {
          assert [ops[0]] + ops[1..] == ops;
          OpLockFree(s, t, ops[0], ops[1..], below);
        }
      case On(Flush(quota, popped), below) =>
        if popped < quota {
          assert s.sh.tasks[0] in s.sh.tasks;
        }
      case On(_, below) =>
    }
  }

  lemma {:induction false} NothingSkipped(s: Sys, sched: seq<ThreadId>, x: Task)
    requires Runs(s, sched) && AllLockFree(s)
    ensures SkippedIn(s, sched, x) == 0
    decreases |sched|
  {
    hide AllLockFree;
    if sched != [] {
      StepLockFree(s, sched[0], x);
      NothingSkipped(Next(s, sched[0]), sched[1..], x);
    }
  }

  lemma RestAhead(s: Sys, x: Task)
    requires AtRest(s)
    ensures Ahead(s, x) == 0
  {
    SumOfNone(st => InStack(x, st), s.threads);
  }

  /** When the scheduler has nothing left to do, every task that the scripts name, at any depth, has been executed or
      run inline as often as it is named, but for what failed try_locks passed over, which is nothing where none is
      tried. */
  lemma EveryTaskRuns(s0: Sys, sched: seq<ThreadId>, x: Task)
    requires Init(s0) && Runs(s0, sched)
    requires forall t :: 0 <= t < |s0.threads| ==> IsThread(After(s0, sched), t) && !CanStep(After(s0, sched), t)
    ensures var s := After(s0, sched);
            Times(x, s.executed) + Times(x, s.inlined) + SkippedIn(s0, sched, x) ==
              Sum(st => InStack(x, st), s0.threads)
    ensures AllLockFree(s0) ==> SkippedIn(s0, sched, x) == 0
  {
    InitInv(s0);
    RunInv(s0, sched);
    EveryRunDrains(s0, sched);
    NothingLost(s0, sched, x);
    RestAhead(After(s0, sched), x);
    if AllLockFree(s0) {
      NothingSkipped(s0, sched, x);
    }
  }
}
