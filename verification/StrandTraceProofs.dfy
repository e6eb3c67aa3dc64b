/** The moves of every thread, in every interleaving, are those of its program text. */
module StrandTraceProofs {
  import opened Strands
  import opened StrandProofs
  import opened StrandProgress
  import opened StrandTraces

  // ---------------------------------------------------------------- a thread on its way

  function FrameLaw(t: ThreadId, f: Frame, inContext: bool, ms: seq<Move>): Verdict {
    match f
    case Run(ops) => BodyLaw(t, inContext, ops, ms)
    case Guarded(_) => Silent(ms)
    case Inline => LeaveLaw(t, ms)
    case Locked => LeaveLaw(t, ms)
    case Entering => FlushLaw(t, ms)
    case Flush(quota, popped) => LoopLaw(t, quota, popped, ms)
    case Emplacing(e, owes) => PushLaw(e, owes, ms)
    case Owing => JobLaw(true, ms)
  }

  function StackLaw(t: ThreadId, worker: bool, st: Stack, ms: seq<Move>): Verdict
    decreases st
  {
    match st
    case Idle => if worker then JobsLaw(t, ms) else if ms == [] then Finished([]) else Wrong
    case On(f, below) =>
      match FrameLaw(t, f, InContext(below), ms)
      case Finished(rest) => StackLaw(t, worker, below, rest)
      case v => v
  }

  function Made(s: Sys, s': Sys): Move { Move(s.sh, s'.sh, s'.tokens - s.tokens) }

  lemma FirstAndRest(m: Move, ms: seq<Move>)
    ensures ([m] + ms)[0] == m && ([m] + ms)[1..] == ms
  {}

  lemma StackUnfold(t: ThreadId, w: bool, f: Frame, below: Stack, ms: seq<Move>)
    ensures var v := FrameLaw(t, f, InContext(below), ms);
            StackLaw(t, w, On(f, below), ms) == if v.Finished? then StackLaw(t, w, below, v.rest) else v
  {}

  lemma BodyUnfold(t: ThreadId, inContext: bool, op: Op, rest: seq<Op>, ms: seq<Move>)
    ensures var v := OpLaw(t, inContext, op, ms);
            BodyLaw(t, inContext, [op] + rest, ms) ==
            if v.Finished? then BodyLaw(t, inContext, rest, v.rest) else v
  {
    assert ([op] + rest)[1..] == rest;
  }

  /** The first operation of a body, and then the rest of it. */
  lemma HeadUnfold(t: ThreadId, w: bool, op: Op, rest: seq<Op>, below: Stack, ms: seq<Move>)
    ensures var v := OpLaw(t, InContext(below), op, ms);
            StackLaw(t, w, On(Run([op] + rest), below), ms) ==
            if v.Finished? then StackLaw(t, w, On(Run(rest), below), v.rest) else v
  {
    hide StackLaw;
    hide BodyLaw;
    hide OpLaw;
    StackUnfold(t, w, Run([op] + rest), below, ms);
    BodyUnfold(t, InContext(below), op, rest, ms);
    var v := OpLaw(t, InContext(below), op, ms);
    if v.Finished? {
      StackUnfold(t, w, Run(rest), below, v.rest);
    }
  }

  /** Inside an inline task or a try_lock scope. */
  lemma InsideTraced(t: ThreadId, w: bool, f: Frame, body: seq<Op>, base: Stack, m: Move, ms: seq<Move>)
    requires (f.Inline? || f.Locked?) && Enters(t, m)
    ensures var v := InsideLaw(t, InContext(On(f, base)), body, [m] + ms);
            StackLaw(t, w, On(Run(body), On(f, base)), ms) == if v.Finished? then StackLaw(t, w, base, v.rest) else v
  {
    hide StackLaw;
    hide BodyLaw;
    hide LeaveLaw;
    FirstAndRest(m, ms);
    StackUnfold(t, w, Run(body), On(f, base), ms);
    var v := BodyLaw(t, InContext(On(f, base)), body, ms);
    if v.Finished? {
      StackUnfold(t, w, f, base, v.rest);
    }
  }

  lemma GuardTraced(t: ThreadId, w: bool, self: bool, body: seq<Op>, base: Stack, ms: seq<Move>)
    ensures var v := GuardLaw(t, self, body, ms);
            StackLaw(t, w, On(Run(body), On(Guarded(self), base)), ms) ==
            if v.Finished? then StackLaw(t, w, base, v.rest) else v
  {
    hide StackLaw;
    hide BodyLaw;
    StackUnfold(t, w, Run(body), On(Guarded(self), base), ms);
    var v := BodyLaw(t, self, body, ms);
    if v.Finished? {
      StackUnfold(t, w, Guarded(self), base, v.rest);
    }
  }

  lemma OpTraced(s: Sys, t: ThreadId, w: bool, op: Op, rest: seq<Op>, below: Stack, ms: seq<Move>)
    requires IsThread(s, t) && s.threads[t] == On(Run([op] + rest), below)
    ensures var s' := NextOp(s, t, op, rest, below);
            StackLaw(t, w, s.threads[t], [Made(s, s')] + ms) == StackLaw(t, w, s'.threads[t], ms)
  {
    hide StackLaw;
    hide BodyLaw;
    hide InsideLaw;
    hide GuardLaw;
    hide PushLaw;
    var s' := NextOp(s, t, op, rest, below);
    var m, base := Made(s, s'), On(Run(rest), below);
    FirstAndRest(m, ms);
    HeadUnfold(t, w, op, rest, below, [m] + ms);
    match op
    case Post(task) =>
      StackUnfold(t, w, Emplacing(Entry(t, task), !s.sh.posted), base, ms);
    case Dispatch(task) =>
      if InContext(below) && !HeldByOther(s.sh, t) {
        InsideTraced(t, w, Inline, task.body, base, m, ms);
      } else {
        HeadUnfold(t, w, Post(task), rest, below, ms);
      }
    case TryLock(body) =>
      if s.sh.owner == [] {
        InsideTraced(t, w, Locked, body, base, m, ms);
      }
    case Guard(self, body) =>
      GuardTraced(t, w, self, body, base, ms);
  }

  lemma FlushTraced(s: Sys, t: ThreadId, w: bool, quota: int, popped: int, below: Stack, ms: seq<Move>)
    requires IsThread(s, t) && CanStep(s, t) && Inv(s) && s.threads[t] == On(Flush(quota, popped), below)
    ensures var s' := NextFlush(s, t, quota, popped, below);
            StackLaw(t, w, s.threads[t], [Made(s, s')] + ms) == StackLaw(t, w, s'.threads[t], ms)
  {
    AssertionsHold(s, t);
    hide Inv;
    hide StackLaw;
    hide BodyLaw;
    var s' := NextFlush(s, t, quota, popped, below);
    var m := Made(s, s');
    FirstAndRest(m, ms);
    StackUnfold(t, w, Flush(quota, popped), below, [m] + ms);
    if popped < quota {
      var body, base := s.sh.tasks[0].task.body, On(Flush(quota, popped + 1), below);
      StackUnfold(t, w, Run(body), base, ms);
      var v := BodyLaw(t, true, body, ms);
      if v.Finished? {
        StackUnfold(t, w, Flush(quota, popped + 1), below, v.rest);
      }
    } else if s'.threads[t] != below {
      StackUnfold(t, w, Owing, below, ms);
    }
  }

  /** Leaving the strand or a guard, finishing a Post, or ending a body. */
  lemma EndTraced(s: Sys, t: ThreadId, w: bool, f: Frame, below: Stack, ms: seq<Move>)
    requires IsThread(s, t) && CanStep(s, t) && Inv(s) && s.threads[t] == On(f, below)
    requires !f.Flush? && !f.Entering? && (f.Run? ==> f.rest == [])
    ensures var s' := Next(s, t);
            StackLaw(t, w, s.threads[t], [Made(s, s')] + ms) == StackLaw(t, w, s'.threads[t], ms)
  {
    if f.Inline? || f.Locked? {
      AssertionsHold(s, t);
    }
    hide Inv;
    hide StackLaw;
    hide NextOp;
    hide NextFlush;
    var s' := Next(s, t);
    FirstAndRest(Made(s, s'), ms);
    StackUnfold(t, w, f, below, [Made(s, s')] + ms);
    if s'.threads[t] != below {
      StackUnfold(t, w, Owing, below, ms);
    }
  }

  lemma StartTraced(s: Sys, t: ThreadId, ms: seq<Move>)
    requires IsThread(s, t) && CanStep(s, t)
    requires s.threads[t] == Idle || s.threads[t].top.Entering?
    ensures var w, s' := t < s.workers, Next(s, t);
            StackLaw(t, w, s.threads[t], [Made(s, s')] + ms) == StackLaw(t, w, s'.threads[t], ms)
  {
    var w, st, s' := t < s.workers, s.threads[t], Next(s, t);
    FirstAndRest(Made(s, s'), ms);
    if st == Idle {
      StackUnfold(t, w, Entering, Idle, ms);
    } else {
      hide StackLaw;
      StackUnfold(t, w, Entering, st.below, [Made(s, s')] + ms);
      if s'.threads[t] != st.below {
        StackUnfold(t, w, s'.threads[t].top, st.below, ms);
      }
    }
  }

  /** Each step of a thread is the next move of what the thread still has to do. */
  lemma StepTraced(s: Sys, t: ThreadId, ms: seq<Move>)
    requires IsThread(s, t) && CanStep(s, t) && Inv(s)
    ensures var w, s' := t < s.workers, Next(s, t);
            StackLaw(t, w, s.threads[t], [Made(s, s')] + ms) == StackLaw(t, w, s'.threads[t], ms)
  {
    hide StackLaw;
    hide Inv;
    hide NextOp;
    hide NextFlush;
    match s.threads[t] {
      case Idle => StartTraced(s, t, ms);
      case On(f, below) =>
        if f.Entering? {
          StartTraced(s, t, ms);
        } else if f.Flush? {
          FlushTraced(s, t, t < s.workers, f.quota, f.popped, below, ms);
        } else if f.Run? && f.rest != [] {
          assert [f.rest[0]] + f.rest[1..] == f.rest;
          OpTraced(s, t, t < s.workers, f.rest[0], f.rest[1..], below, ms);
        } else {
          EndTraced(s, t, t < s.workers, f, below, ms);
        }
    }
  }

  // ---------------------------------------------------------------- whole runs

  /** The moves of thread `t` in a run. */
  ghost function MovesOf(s: Sys, sched: seq<ThreadId>, t: ThreadId): seq<Move>
    requires Runs(s, sched)
    decreases |sched|
  {
    if sched == [] then []
    else
      var s' := Next(s, sched[0]);
      (if sched[0] == t then [Made(s, s')] else []) + MovesOf(s', sched[1..], t)
  }

  lemma {:induction false} RunTraced(s: Sys, sched: seq<ThreadId>, t: ThreadId)
    requires Inv(s) && Runs(s, sched) && IsThread(s, t)
    ensures IsThread(After(s, sched), t)
    ensures StackLaw(t, t < s.workers, s.threads[t], MovesOf(s, sched, t)) ==
            StackLaw(t, t < s.workers, After(s, sched).threads[t], [])
    decreases |sched|
  {
    hide StackLaw;
    hide Inv;
    if sched != [] {
      var u, s' := sched[0], Next(s, sched[0]);
      StepInv(s, u);
      NextChangesOne(s, u);
      hide Next;
      RunTraced(s', sched[1..], t);
      if u == t {
        StepTraced(s, t, MovesOf(s', sched[1..], t));
      } else {
        assert MovesOf(s, sched, t) == MovesOf(s', sched[1..], t);
      }
    }
  }

  /** What thread `t` is there for. */
  ghost function ThreadLaw(s0: Sys, t: ThreadId, ms: seq<Move>): Verdict
    requires Init(s0) && IsThread(s0, t)
  {
    if t < s0.workers then JobsLaw(t, ms) else ScriptLaw(t, s0.threads[t].top.rest, ms)
  }

  lemma OutOfMoves(t: ThreadId, w: bool, st: Stack)
    ensures StackLaw(t, w, st, []) == if st == Idle then Finished([]) else Stopped
  {
    if st.On? && st.top.Run? && st.top.rest != [] {
      assert OpLaw(t, InContext(st.below), st.top.rest[0], []) == Stopped;
    }
  }

  lemma AtStart(s0: Sys, t: ThreadId, ms: seq<Move>)
    requires Init(s0) && IsThread(s0, t)
    ensures ThreadLaw(s0, t, ms) == StackLaw(t, t < s0.workers, s0.threads[t], ms)
  {
    hide BodyLaw;
    hide JobsLaw;
    if t >= s0.workers {
      StackUnfold(t, false, s0.threads[t].top, Idle, ms);
    }
  }

  /** In every interleaving every thread does what its program says and nothing else, and is idle exactly when it is
      through with it. */
  lemma FollowsProgram(s0: Sys, sched: seq<ThreadId>, t: ThreadId)
    requires Init(s0) && Runs(s0, sched) && IsThread(s0, t)
    ensures IsThread(After(s0, sched), t)
    ensures ThreadLaw(s0, t, MovesOf(s0, sched, t)) ==
            if After(s0, sched).threads[t] == Idle then Finished([]) else Stopped
  {
    InitInv(s0);
    hide StackLaw;
    hide Inv;
    RunTraced(s0, sched, t);
    AtStart(s0, t, MovesOf(s0, sched, t));
    OutOfMoves(t, t < s0.workers, After(s0, sched).threads[t]);
  }
}
