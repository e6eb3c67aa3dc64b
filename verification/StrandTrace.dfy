/** What a thread of the strand does, told as structured program text: the law that the moves a thread makes in any
    interleaving, seen as changes of the shared state alone, are those of its script and of the tasks it takes. */
module StrandTraces {
  import opened Strands

  /** What one step does to the shared state, and how many flush jobs it gives to the pool or takes from it. */
  datatype Move = Move(before: Shared, after: Shared, jobs: int)

  /** The moves do something else, come to an end on the way, or do all of it and then go on. */
  datatype Verdict = Wrong | Stopped | Finished(rest: seq<Move>)

  // ---------------------------------------------------------------- single moves

  predicate Quiet(m: Move) { m.after == m.before && m.jobs == 0 }

  /** Nobody else is inside. */
  predicate MayEnter(sh: Shared, t: ThreadId) { sh.owner == [] || sh.owner[|sh.owner| - 1] == t }

  predicate Enters(t: ThreadId, m: Move) {
    m.jobs == 0 && m.after == Shared(m.before.owner + [t], m.before.taskCount, m.before.posted, m.before.tasks)
  }

  predicate Counts(m: Move) {
    m.jobs == 0 && m.after == Shared(m.before.owner, m.before.taskCount + 1, true, m.before.tasks)
  }

  predicate Pushes(e: Entry, m: Move) {
    m.jobs == 0 && m.after == Shared(m.before.owner, m.before.taskCount, m.before.posted, m.before.tasks + [e])
  }

  predicate Pops(m: Move) {
    && m.jobs == 0 && m.before.tasks != []
    && m.after == Shared(m.before.owner, m.before.taskCount, m.before.posted, m.before.tasks[1..])
  }

  /** The thread drops its own entry, the last. */
  predicate Leaves(t: ThreadId, m: Move) {
    && m.jobs == 0 && m.before.owner == m.after.owner + [t]
    && m.after == Shared(m.after.owner, m.before.taskCount, m.before.posted, m.before.tasks)
  }

  /** At the end of a flush it also subtracts what the flush has run. */
  predicate Subtracts(t: ThreadId, quota: int, m: Move) {
    && m.jobs == 0 && m.before.owner == m.after.owner + [t]
    && var left := m.before.taskCount - quota;
       m.after == Shared(m.after.owner, left, m.before.posted && left > 0, m.before.tasks)
  }

  predicate PostsJob(m: Move) { m.after == m.before && m.jobs == 1 }

  predicate TakesJob(m: Move) { m.after == m.before && m.jobs == -1 }

  // ---------------------------------------------------------------- operations

  function Silent(ms: seq<Move>): (v: Verdict)
    ensures v.Finished? ==> |v.rest| < |ms|
  {
    if ms == [] then Stopped else if Quiet(ms[0]) then Finished(ms[1..]) else Wrong
  }

  /** PostFlushTask, if it is called for. */
  function JobLaw(called: bool, ms: seq<Move>): (v: Verdict)
    ensures v.Finished? ==> |v.rest| <= |ms|
  {
    if !called then Finished(ms)
    else if ms == [] then Stopped else if PostsJob(ms[0]) then Finished(ms[1..]) else Wrong
  }

  /** The second half of Post. */
  function PushLaw(e: Entry, owes: bool, ms: seq<Move>): (v: Verdict)
    ensures v.Finished? ==> |v.rest| < |ms|
  {
    if ms == [] then Stopped else if Pushes(e, ms[0]) then JobLaw(owes, ms[1..]) else Wrong
  }

  function PostLaw(t: ThreadId, task: Task, ms: seq<Move>): (v: Verdict)
    ensures v.Finished? ==> |v.rest| < |ms|
  {
    if ms == [] then Stopped
    else if Counts(ms[0]) then PushLaw(Entry(t, task), !ms[0].before.posted, ms[1..]) else Wrong
  }

  /** The end of release and of an inline Dispatch. */
  function LeaveLaw(t: ThreadId, ms: seq<Move>): (v: Verdict)
    ensures v.Finished? ==> |v.rest| < |ms|
  {
    if ms == [] then Stopped
    else if Leaves(t, ms[0]) then JobLaw(ms[0].before.taskCount > 0, ms[1..]) else Wrong
  }

  /** A function body, run where the innermost guard is this strand's or not; leaving it is a move of its own. */
  function BodyLaw(t: ThreadId, inContext: bool, ops: seq<Op>, ms: seq<Move>): (v: Verdict)
    ensures v.Finished? ==> |v.rest| < |ms|
    decreases ops, 1
  {
    if ops == [] then Silent(ms)
    else
      match OpLaw(t, inContext, ops[0], ms)
      case Finished(rest) => BodyLaw(t, inContext, ops[1..], rest)
      case v => v
  }

  function OpLaw(t: ThreadId, inContext: bool, op: Op, ms: seq<Move>): (v: Verdict)
    ensures v.Finished? ==> |v.rest| < |ms|
    decreases op, 0
  {
    match op
    case Post(task) => PostLaw(t, task, ms)
    // in the strand and not locked out: all of the task before anything else; otherwise as if posted
    case Dispatch(task) =>
      if ms == [] then Stopped
      else if inContext && MayEnter(ms[0].before, t) then InsideLaw(t, true, task.body, ms)
      else if Quiet(ms[0]) then PostLaw(t, task, ms[1..]) else Wrong
    case TryLock(body) =>
      if ms == [] then Stopped
      else if ms[0].before.owner == [] then InsideLaw(t, inContext, body, ms)
      else Silent(ms)
    case Guard(self, body) =>
      if ms == [] then Stopped
      else if Quiet(ms[0]) then GuardLaw(t, self, body, ms[1..]) else Wrong
  }

  function GuardLaw(t: ThreadId, self: bool, body: seq<Op>, ms: seq<Move>): (v: Verdict)
    ensures v.Finished? ==> |v.rest| < |ms|
    decreases body, 2
  {
    match BodyLaw(t, self, body, ms)
    case Finished(rest) => Silent(rest)
    case v => v
  }

  /** In, the body, and out. */
  function InsideLaw(t: ThreadId, inContext: bool, body: seq<Op>, ms: seq<Move>): (v: Verdict)
    ensures v.Finished? ==> |v.rest| < |ms|
    decreases body, 2
  {
    if ms == [] then Stopped
    else if !Enters(t, ms[0]) then Wrong
    else
      match BodyLaw(t, inContext, body, ms[1..])
      case Finished(rest) => LeaveLaw(t, rest)
      case v => v
  }

  // ---------------------------------------------------------------- FlushTasks

  /** From inside the loop on: the tasks are the front of the queue, each run before the next is taken. */
  function LoopLaw(t: ThreadId, quota: int, count: int, ms: seq<Move>): (v: Verdict)
    ensures v.Finished? ==> |v.rest| < |ms|
    decreases |ms|
  {
    if ms == [] then Stopped
    else if count >= quota then
      if Subtracts(t, quota, ms[0]) then JobLaw(ms[0].after.taskCount > 0, ms[1..]) else Wrong
    else if !Pops(ms[0]) then Wrong
    else
      match BodyLaw(t, true, ms[0].before.tasks[0].task.body, ms[1..])
      case Finished(rest) => LoopLaw(t, quota, count + 1, rest)
      case v => v
  }

  function FlushLaw(t: ThreadId, ms: seq<Move>): (v: Verdict)
    ensures v.Finished? ==> |v.rest| < |ms|
  {
    if ms == [] then Stopped
    else if !MayEnter(ms[0].before, t) then Silent(ms)
    else if Enters(t, ms[0]) then LoopLaw(t, ms[0].before.taskCount, 0, ms[1..]) else Wrong
  }

  /** A pool thread: one flush job after the other. */
  function JobsLaw(t: ThreadId, ms: seq<Move>): Verdict
    decreases |ms|
  {
    if ms == [] then Finished([])
    else if !TakesJob(ms[0]) then Wrong
    else
      match FlushLaw(t, ms[1..])
      case Finished(rest) => JobsLaw(t, rest)
      case v => v
  }

  // ---------------------------------------------------------------- threads

  /** A thread that is not the pool's runs its script and is done. */
  function ScriptLaw(t: ThreadId, script: seq<Op>, ms: seq<Move>): Verdict {
    match BodyLaw(t, false, script, ms)
    case Finished(rest) => if rest == [] then Finished([]) else Wrong
    case v => v
  }
}
