/** The strand of shared/execution/executor: a serial executor on a thread pool.

    `Shared` is what the spin mutex and the concurrent queue protect; the functions on it are the atomic
    sections of the code and the class `Strand` performs each of them in place. `Sys` adds the threads, each a
    stack of frames that says where in `Post`, `Dispatch`, `release` or `FlushTasks` it stands, and the pool's
    bag of flush jobs. Every interleaving of `Next` is a run of the program. */
module Strands {
  import opened Wrappers

  type ThreadId = nat

  /** What a task, or any code that uses the strand, does: a finite script. */
  datatype Task = Task(id: nat, body: seq<Op>)

  datatype Op =
    | Post(task: Task)
    | Dispatch(task: Task)
    | TryLock(body: seq<Op>)              // on success: the body, then release
    | Guard(self: bool, body: seq<Op>)    // an ExecutorGuard on this strand or on another executor

  /** A queue entry; `poster` remembers the posting thread. */
  datatype Entry = Entry(poster: ThreadId, task: Task)

  datatype Shared = Shared(owner: seq<ThreadId>, taskCount: int, posted: bool, tasks: seq<Entry>)

  // ---------------------------------------------------------------- atomic sections

  predicate HeldByOther(sh: Shared, t: ThreadId) {
    sh.owner != [] && sh.owner[|sh.owner| - 1] != t
  }

  /** try_lock: succeeds exactly on an unowned strand. */
  function LockSection(sh: Shared, t: ThreadId): (Shared, bool) {
    if sh.owner == [] then (sh.(owner := [t]), true) else (sh, false)
  }

  /** First half of Post: count the task; true when this call must post the flush job. */
  function PostSection(sh: Shared): (Shared, bool) {
    (sh.(taskCount := sh.taskCount + 1, posted := true), !sh.posted)
  }

  function Emplace(sh: Shared, e: Entry): Shared {
    sh.(tasks := sh.tasks + [e])
  }

  /** First section of Dispatch: true when the task runs inline. */
  function DispatchSection(sh: Shared, t: ThreadId, inContext: bool): (Shared, bool) {
    if inContext && !HeldByOther(sh, t) then (sh.(owner := sh.owner + [t]), true) else (sh, false)
  }

  /** The last section of release and of an inline Dispatch: true when tasks are waiting. */
  function LeaveSection(sh: Shared): (Shared, bool)
    requires sh.owner != []
  {
    (sh.(owner := sh.owner[..|sh.owner| - 1]), sh.taskCount > 0)
  }

  /** First section of FlushTasks: the number of tasks this flush will run, or None when another thread is in. */
  function FlushSection(sh: Shared, t: ThreadId): (Shared, Option<int>) {
    if HeldByOther(sh, t) then (sh, None) else (sh.(owner := sh.owner + [t]), Some(sh.taskCount))
  }

  function TryPop(sh: Shared): (Shared, Option<Entry>) {
    if sh.tasks == [] then (sh, None) else (sh.(tasks := sh.tasks[1..]), Some(sh.tasks[0]))
  }

  /** Last section of FlushTasks: true when tasks arrived meanwhile. */
  function FlushEndSection(sh: Shared, quota: int): (Shared, bool)
    requires sh.owner != []
  {
    var left := sh.taskCount - quota;
    (sh.(owner := sh.owner[..|sh.owner| - 1], taskCount := left, posted := sh.posted && left > 0), left > 0)
  }

  class Strand {
    var owner: seq<ThreadId>
    var taskCount: int
    var posted: bool
    var tasks: seq<Entry>

    ghost function State(): Shared
      reads this
    {
      Shared(owner, taskCount, posted, tasks)
    }

    constructor ()
      ensures State() == Shared([], 0, false, [])
    {
      owner, taskCount, posted, tasks := [], 0, false, [];
    }

    method TryLockStep(tid: ThreadId) returns (ok: bool)
      modifies this
      ensures (State(), ok) == LockSection(old(State()), tid)
      ensures ok == (old(owner) == []) && owner == (if ok then [tid] else old(owner))
      ensures unchanged(`taskCount) && unchanged(`posted) && unchanged(`tasks)
    {
      if |owner| == 0 {
        owner := [tid];
        return true;
      }
      return false;
    }

    /** The precondition is the code's own assertion; `StrandProgress.AssertionsHold` shows that every run meets it. */
    method ReleaseStep(tid: ThreadId) returns (shouldPost: bool)
      requires owner != [] && owner[|owner| - 1] == tid
      modifies this
      ensures (State(), shouldPost) == LeaveSection(old(State()))
      ensures owner + [tid] == old(owner) && shouldPost == (taskCount > 0)
      ensures unchanged(`taskCount) && unchanged(`posted) && unchanged(`tasks)
    {
      owner := owner[..|owner| - 1];
      shouldPost := taskCount > 0;
    }

    method PostStep() returns (shouldPost: bool)
      modifies this
      ensures (State(), shouldPost) == PostSection(old(State()))
      ensures taskCount == old(taskCount) + 1 && posted && shouldPost == !old(posted)
      ensures unchanged(`owner) && unchanged(`tasks)
    {
      taskCount := taskCount + 1;
      shouldPost := posted == false;
      posted := true;
    }

    method EmplaceStep(e: Entry)
      modifies this
      ensures State() == Emplace(old(State()), e)
      ensures tasks == old(tasks) + [e] && unchanged(`owner) && unchanged(`taskCount) && unchanged(`posted)
    {
      tasks := tasks + [e];
    }

    method DispatchStep(tid: ThreadId, inContext: bool) returns (inline: bool)
      modifies this
      ensures (State(), inline) == DispatchSection(old(State()), tid, inContext)
      ensures inline <==> inContext && (old(owner) == [] || old(owner)[|old(owner)| - 1] == tid)
      ensures owner == if inline then old(owner) + [tid] else old(owner)
      ensures unchanged(`taskCount) && unchanged(`posted) && unchanged(`tasks)
    {
      inline := false;
      if inContext {
        if |owner| != 0 && owner[|owner| - 1] != tid {
          inline := false;
        } else {
          inline := true;
          owner := owner + [tid];
        }
      }
    }

    method DispatchEndStep() returns (shouldPost: bool)
      requires owner != []
      modifies this
      ensures (State(), shouldPost) == LeaveSection(old(State()))
      ensures owner < old(owner) && |owner| == |old(owner)| - 1 && shouldPost == (taskCount > 0)
      ensures unchanged(`taskCount) && unchanged(`posted) && unchanged(`tasks)
    {
      owner := owner[..|owner| - 1];
      shouldPost := taskCount > 0;
    }

    method FlushStep(tid: ThreadId) returns (entered: bool, quota: int)
      modifies this
      ensures FlushSection(old(State()), tid) == (State(), if entered then Some(quota) else None)
      ensures entered <==> old(owner) == [] || old(owner)[|old(owner)| - 1] == tid
      ensures if entered then owner == old(owner) + [tid] && quota == taskCount else owner == old(owner)
      ensures unchanged(`taskCount) && unchanged(`posted) && unchanged(`tasks)
    {
      if |owner| != 0 && owner[|owner| - 1] != tid {
        return false, 0;
      }
      owner := owner + [tid];
      return true, taskCount;
    }

    method TryPopStep() returns (entry: Option<Entry>)
      modifies this
      ensures (State(), entry) == TryPop(old(State()))
      ensures if entry.Some? then [entry.value] + tasks == old(tasks) else tasks == old(tasks) == []
      ensures unchanged(`owner) && unchanged(`taskCount) && unchanged(`posted)
    {
      if |tasks| == 0 {
        return None;
      }
      entry := Some(tasks[0]);
      tasks := tasks[1..];
    }

    method FlushEndStep(quota: int) returns (shouldContinue: bool)
      requires owner != []
      modifies this
      ensures (State(), shouldContinue) == FlushEndSection(old(State()), quota)
      ensures owner < old(owner) && |owner| == |old(owner)| - 1 && taskCount == old(taskCount) - quota
      ensures shouldContinue == (taskCount > 0) && posted == (old(posted) && shouldContinue) && unchanged(`tasks)
    {
      owner := owner[..|owner| - 1];
      taskCount := taskCount - quota;
      shouldContinue := taskCount > 0;
      if !shouldContinue {
        posted := false;
      }
    }
  }

  // ---------------------------------------------------------------- threads

  datatype Frame =
    | Run(rest: seq<Op>)                    // what is left of a function body
    | Guarded(self: bool)                   // ExecutorGuard in scope
    | Inline                                // a task dispatched inline
    | Locked                                // between try_lock and release
    | Entering                              // a flush job taken from the pool, before its first section
    | Flush(quota: int, popped: int)        // inside FlushTasks
    | Emplacing(entry: Entry, owes: bool)   // in Post, between the section and the queue push
    | Owing                                 // about to call PostFlushTask

  datatype Stack = Idle | On(top: Frame, below: Stack)

  /** ExecutionContext::GetExecutor() == this: the innermost guard is this strand's. */
  predicate InContext(st: Stack) {
    match st
    case Idle => false
    case On(Guarded(self), _) => self
    case On(Inline, _) => true
    case On(Flush(_, _), _) => true
    case On(_, below) => InContext(below)
  }

  /** The first `workers` threads are the pool's. The histories: `begun` in the order of Post's sections,
      `enqueued` in the order of queue pushes, `executed` in the order of successful pops, `inlined` in the order
      of inline dispatches. */
  datatype Sys = Sys(sh: Shared, tokens: nat, workers: nat, threads: seq<Stack>,
                     begun: seq<Entry>, enqueued: seq<Entry>, executed: seq<Entry>, inlined: seq<Entry>)

  predicate IsThread(s: Sys, t: ThreadId) { t < |s.threads| }

  predicate CanStep(s: Sys, t: ThreadId)
    requires IsThread(s, t)
  {
    match s.threads[t]
    case Idle => t < s.workers && s.tokens > 0
    case On(Flush(quota, popped), _) =>
      if popped < quota then s.sh.tasks != []   // else an empty try_pop, retried
      else s.sh.owner != []
    case On(Inline, _) => s.sh.owner != []                                    // the code's assertions
    case On(Locked, _) => s.sh.owner != []
    case _ => true
  }

  function Sched(s: Sys, t: ThreadId, sh: Shared, st: Stack): Sys
    requires IsThread(s, t)
  {
    s.(sh := sh, threads := s.threads[t := st])
  }

  function AfterLeave(below: Stack, shouldPost: bool): Stack {
    if shouldPost then On(Owing, below) else below
  }

  /** One operation of a running body. */
  function NextOp(s: Sys, t: ThreadId, op: Op, rest: seq<Op>, below: Stack): Sys
    requires IsThread(s, t)
  {
    match op
    case Post(task) =>
      var (sh, owes) := PostSection(s.sh);
      var e := Entry(t, task);
      Sched(s, t, sh, On(Emplacing(e, owes), On(Run(rest), below))).(begun := s.begun + [e])
    case Dispatch(task) =>
      var (sh, inline) := DispatchSection(s.sh, t, InContext(below));
      if inline then
        Sched(s, t, sh, On(Run(task.body), On(Inline, On(Run(rest), below)))).(inlined := s.inlined + [Entry(t, task)])
      else Sched(s, t, sh, On(Run([Post(task)] + rest), below))
    case TryLock(body) =>
      var (sh, ok) := LockSection(s.sh, t);
      Sched(s, t, sh, if ok then On(Run(body), On(Locked, On(Run(rest), below))) else On(Run(rest), below))
    case Guard(self, body) =>
      Sched(s, t, s.sh, On(Run(body), On(Guarded(self), On(Run(rest), below))))
  }

  function NextFlush(s: Sys, t: ThreadId, quota: int, popped: int, below: Stack): Sys
    requires IsThread(s, t) && CanStep(s, t) && s.threads[t] == On(Flush(quota, popped), below)
  {
    if popped < quota then
      var (sh, e) := TryPop(s.sh);
      Sched(s, t, sh,
        On(Run(e.value.task.body), On(Flush(quota, popped + 1), below))).(executed := s.executed + [e.value])
    else
      var (sh, more) := FlushEndSection(s.sh, quota);
      Sched(s, t, sh, AfterLeave(below, more))
  }

  /** The next atomic step of thread `t`. */
  function Next(s: Sys, t: ThreadId): Sys
    requires IsThread(s, t) && CanStep(s, t)
  {
    match s.threads[t]
    case Idle => Sched(s, t, s.sh, On(Entering, Idle)).(tokens := s.tokens - 1)
    case On(Entering, below) =>
      var (sh, quota) := FlushSection(s.sh, t);
      Sched(s, t, sh, if quota.Some? then On(Flush(quota.value, 0), below) else below)
    case On(Flush(quota, popped), below) => NextFlush(s, t, quota, popped, below)
    case On(Run(ops), below) => if ops == [] then Sched(s, t, s.sh, below) else NextOp(s, t, ops[0], ops[1..], below)
    case On(Guarded(_), below) => Sched(s, t, s.sh, below)
    case On(Inline, below) => var (sh, more) := LeaveSection(s.sh); Sched(s, t, sh, AfterLeave(below, more))
    case On(Locked, below) => var (sh, more) := LeaveSection(s.sh); Sched(s, t, sh, AfterLeave(below, more))
    case On(Emplacing(e, owes), below) =>
      Sched(s, t, Emplace(s.sh, e), AfterLeave(below, owes)).(enqueued := s.enqueued + [e])
    case On(Owing, below) => Sched(s, t, s.sh, below).(tokens := s.tokens + 1)
  }
}
