/** What every interleaving of a strand's threads keeps, and that every run comes to rest with all tasks run. */
module StrandProofs {
  import opened Strands

  // ---------------------------------------------------------------- sums over the threads

  ghost function Sum(f: Stack -> int, ts: seq<Stack>): int {
    if ts == [] then 0 else Sum(f, ts[..|ts| - 1]) + f(ts[|ts| - 1])
  }

  lemma {:induction false} SumUpdate(f: Stack -> int, ts: seq<Stack>, t: nat, st: Stack)
    requires t < |ts|
    ensures Sum(f, ts[t := st]) == Sum(f, ts) - f(ts[t]) + f(st)
  {
    var n := |ts| - 1;
    if t == n {
      assert ts[t := st][..n] == ts[..n];
    } else {
      SumUpdate(f, ts[..n], t, st);
      assert ts[t := st][..n] == ts[..n][t := st];
    }
  }

  lemma {:induction false} SumOfOne(f: Stack -> int, ts: seq<Stack>, t: nat)
    requires t < |ts|
    requires forall u :: 0 <= u < |ts| && u != t ==> f(ts[u]) == 0
    ensures Sum(f, ts) == f(ts[t])
  {
    var n := |ts| - 1;
    if t == n {
      SumOfNone(f, ts[..n]);
    } else {
      SumOfOne(f, ts[..n], t);
    }
  }

  lemma {:induction false} SumOfNone(f: Stack -> int, ts: seq<Stack>)
    requires forall u :: 0 <= u < |ts| ==> f(ts[u]) == 0
    ensures Sum(f, ts) == 0
  {
    if ts != [] {
      SumOfNone(f, ts[..|ts| - 1]);
    }
  }

  // ---------------------------------------------------------------- what a stack stands for

  /** Owner entries this thread has pushed and not yet popped. */
  function Depth(st: Stack): int {
    match st
    case Idle => 0
    case On(f, below) => (if f.Inline? || f.Locked? || f.Flush? then 1 else 0) + Depth(below)
  }

  /** Counted tasks that are not in the queue: posted but not pushed yet, or popped but not subtracted yet. */
  function InHand(st: Stack): int {
    match st
    case Idle => 0
    case On(Emplacing(_, _), below) => 1 + InHand(below)
    case On(Flush(_, popped), below) => popped + InHand(below)
    case On(_, below) => InHand(below)
  }

  function Flushes(st: Stack): int {
    match st
    case Idle => 0
    case On(f, below) => (if f.Flush? then 1 else 0) + Flushes(below)
  }

  function Quota(st: Stack): int {
    match st
    case Idle => 0
    case On(f, below) => (if f.Flush? then f.quota else 0) + Quota(below)
  }

  /** Frames only ever found on top. */
  predicate Momentary(f: Frame) { f.Entering? || f.Emplacing? || f.Owing? }

  /** A flush starts on an idle thread, so its frame is the bottom one. */
  predicate Settled(st: Stack) {
    match st
    case Idle => true
    case On(f, below) =>
      && !Momentary(f)
      && (f.Flush? ==> below == Idle && 0 <= f.popped <= f.quota)
      && Settled(below)
  }

  predicate Shaped(st: Stack) {
    match st
    case Idle => true
    case On(f, below) => if Momentary(f) then Settled(below) && (f.Entering? ==> below == Idle) else Settled(st)
  }

  /** The thread is committed to posting a flush job, or carries one. */
  predicate Carries(st: Stack) {
    st.On? && (st.top.Owing? || st.top.Entering? || (st.top.Emplacing? && st.top.owes))
  }

  // ---------------------------------------------------------------- the invariant

  function Share(sh: Shared, t: ThreadId): int {
    if sh.owner != [] && sh.owner[0] == t then |sh.owner| else 0
  }

  ghost predicate OneOwner(sh: Shared) {
    forall i :: 0 <= i < |sh.owner| ==> sh.owner[i] == sh.owner[0]
  }

  ghost predicate ThreadOk(sh: Shared, t: ThreadId, st: Stack) {
    Shaped(st) && Depth(st) == Share(sh, t) && Quota(st) <= sh.taskCount
  }

  /** Mutual exclusion: one thread holds every entry of the owner list, as many as it is nested deep. */
  ghost predicate Exclusion(s: Sys) {
    && OneOwner(s.sh)
    && (s.sh.owner != [] ==> IsThread(s, s.sh.owner[0]))
    && forall t :: 0 <= t < |s.threads| ==> ThreadOk(s.sh, t, s.threads[t])
  }

  ghost predicate Counted(s: Sys) {
    s.sh.taskCount == |s.sh.tasks| + Sum(InHand, s.threads)
  }

  ghost predicate Wakeup(s: Sys) {
    && (s.sh.posted <==> s.sh.taskCount > 0)
    && (s.sh.taskCount > 0 ==>
          s.tokens > 0 || s.sh.owner != [] || exists t :: 0 <= t < |s.threads| && Carries(s.threads[t]))
  }

  function By(es: seq<Entry>, t: ThreadId): seq<Entry> {
    if es == [] then [] else By(es[..|es| - 1], t) + (if es[|es| - 1].poster == t then [es[|es| - 1]] else [])
  }

  lemma {:induction false} ByAppend(es: seq<Entry>, e: Entry, t: ThreadId)
    ensures By(es + [e], t) == By(es, t) + (if e.poster == t then [e] else [])
  {
    assert (es + [e])[..|es|] == es;
  }

  function Carried(st: Stack): seq<Entry> {
    if st.On? && st.top.Emplacing? then [st.top.entry] else []
  }

  /** Run in queue order, each once; pushed in each thread's program order. */
  ghost predicate Ordered(s: Sys) {
    && s.executed + s.sh.tasks == s.enqueued
    && forall t :: 0 <= t < |s.threads| ==>
         && By(s.begun, t) == By(s.enqueued, t) + Carried(s.threads[t])
         && forall e :: e in Carried(s.threads[t]) ==> e.poster == t
  }

  ghost predicate Inv(s: Sys) {
    Exclusion(s) && Counted(s) && Wakeup(s) && Ordered(s)
  }

  /** A fresh strand, idle pool threads, and any number of other threads about to run any script. */
  ghost predicate Init(s: Sys) {
    && s.sh == Shared([], 0, false, []) && s.tokens == 0
    && s.begun == [] && s.enqueued == [] && s.executed == [] && s.inlined == []
    && 0 < s.workers <= |s.threads|
    && forall t :: 0 <= t < |s.threads| ==>
         if t < s.workers then s.threads[t] == Idle
         else s.threads[t].On? && s.threads[t].top.Run? && s.threads[t].below == Idle
  }

  lemma InitInv(s: Sys)
    requires Init(s)
    ensures Inv(s)
  {
    forall t | 0 <= t < |s.threads|
      ensures ThreadOk(s.sh, t, s.threads[t]) && InHand(s.threads[t]) == 0 && Carried(s.threads[t]) == []
    {
      if t >= s.workers {
        assert s.threads[t] == On(s.threads[t].top, Idle);
      }
    }
    SumOfNone(InHand, s.threads);
  }

  // ---------------------------------------------------------------- every step keeps it

  lemma SettledShaped(st: Stack)
    ensures Settled(st) ==> Shaped(st)
  {}

  lemma {:induction false} StackFacts(st: Stack)
    requires Shaped(st)
    ensures Depth(st) >= 0 && Quota(st) >= 0 && InHand(st) >= 0 && 0 <= Flushes(st) <= 1
    ensures Flushes(st) <= Depth(st)
    ensures Flushes(st) == 0 ==> Quota(st) == 0
    ensures Settled(st) && Flushes(st) == 0 ==> InHand(st) == 0
  {
    if st.On? {
      SettledShaped(st.below);
      StackFacts(st.below);
    }
  }

  /** Only the owner's thread can be inside a flush. */
  lemma OthersIdle(s: Sys, t: ThreadId, u: ThreadId)
    requires IsThread(s, t) && IsThread(s, u) && u != t && Exclusion(s)
    requires Depth(s.threads[t]) > 0
    ensures Depth(s.threads[u]) == 0 && Flushes(s.threads[u]) == 0 && Quota(s.threads[u]) == 0
  {
    assert ThreadOk(s.sh, t, s.threads[t]) && ThreadOk(s.sh, u, s.threads[u]);
    StackFacts(s.threads[u]);
  }

  /** What a step must establish about the stepping thread itself. */
  ghost predicate OwnOk(s: Sys, t: ThreadId)
    requires IsThread(s, t)
  {
    OneOwner(s.sh) && (s.sh.owner != [] ==> IsThread(s, s.sh.owner[0])) && ThreadOk(s.sh, t, s.threads[t])
  }

  lemma OpOwn(s: Sys, t: ThreadId, op: Op, rest: seq<Op>, below: Stack)
    requires IsThread(s, t) && OwnOk(s, t) && s.threads[t] == On(Run([op] + rest), below)
    ensures OwnOk(NextOp(s, t, op, rest, below), t)
  {
    var base := On(Run(rest), below);
    assert Settled(base) && Depth(base) == Depth(s.threads[t]) && Quota(base) == Quota(s.threads[t]);
    match op
    case Post(task) =>
    case Dispatch(task) =>
      assert Depth(On(Inline, base)) == Depth(base) + 1 && Settled(On(Inline, base));
    case TryLock(body) =>
      assert Depth(On(Locked, base)) == Depth(base) + 1 && Settled(On(Locked, base));
    case Guard(self, body) =>
      assert Depth(On(Guarded(self), base)) == Depth(base) && Settled(On(Guarded(self), base));
  }

  lemma FlushOwn(s: Sys, t: ThreadId)
    requires IsThread(s, t) && CanStep(s, t) && OwnOk(s, t)
    requires s.threads[t].On? && (s.threads[t].top.Flush? || s.threads[t].top.Entering?)
    ensures OwnOk(Next(s, t), t)
  {
    assert s.threads[t].below == Idle;
    if s.threads[t].top.Flush? && s.threads[t].top.popped < s.threads[t].top.quota {
      var f := On(Flush(s.threads[t].top.quota, s.threads[t].top.popped + 1), Idle);
      assert Depth(Idle) == 0 && Quota(Idle) == 0 && Settled(Idle);
      assert Settled(f);
      assert Depth(f) == 1;
      assert Quota(f) == s.threads[t].top.quota;
    }
  }

  lemma OtherOwn(s: Sys, t: ThreadId)
    requires IsThread(s, t) && CanStep(s, t) && OwnOk(s, t)
    requires s.threads[t].On? ==> !s.threads[t].top.Run? && !s.threads[t].top.Flush? && !s.threads[t].top.Entering?
    ensures OwnOk(Next(s, t), t)
  {
    hide NextOp;
    hide NextFlush;
    if s.threads[t].On? {
      SettledShaped(s.threads[t].below);
      StackFacts(s.threads[t].below);
    }
  }

  lemma StepOwn(s: Sys, t: ThreadId)
    requires IsThread(s, t) && CanStep(s, t) && OwnOk(s, t)
    ensures OwnOk(Next(s, t), t)
  {
    match s.threads[t] {
      case On(Run(ops), below) =>
        if ops == [] {
          SettledShaped(below);
        } else {
          assert [ops[0]] + ops[1..] == ops;
          OpOwn(s, t, ops[0], ops[1..], below);
        }
      case On(Flush(_, _), _) => FlushOwn(s, t);
      case On(Entering, _) => FlushOwn(s, t);
      case _ => OtherOwn(s, t);
    }
  }

  /** A step moves the owner list only at its end, and only for the thread's own sake. */
  lemma SharedMoves(s: Sys, t: ThreadId)
    requires IsThread(s, t) && CanStep(s, t) && OwnOk(s, t)
    ensures var o, o' := s.sh.owner, Next(s, t).sh.owner;
            || o' == o
            || (o' == o + [t] && !HeldByOther(s.sh, t))
            || (o != [] && o' == o[..|o| - 1] && Depth(s.threads[t]) > 0)
    ensures Next(s, t).sh.taskCount >= s.sh.taskCount || Depth(s.threads[t]) > 0
  {
    var st := s.threads[t];
    if st.On? {
      SettledShaped(st.below);
      StackFacts(st.below);
    }
  }

  lemma SameShare(sh: Shared, sh': Shared, t: ThreadId, u: ThreadId)
    requires u != t && OneOwner(sh) && OneOwner(sh')
    requires || sh'.owner == sh.owner
             || (sh'.owner == sh.owner + [t] && !HeldByOther(sh, t))
             || (sh.owner != [] && sh'.owner == sh.owner[..|sh.owner| - 1] && sh.owner[0] == t)
    ensures Share(sh', u) == Share(sh, u)
  {}

  lemma OthersKept(s: Sys, t: ThreadId, u: ThreadId)
    requires IsThread(s, t) && IsThread(s, u) && u != t && CanStep(s, t) && Exclusion(s)
    requires OwnOk(Next(s, t), t)
    ensures ThreadOk(Next(s, t).sh, u, s.threads[u])
  {
    assert ThreadOk(s.sh, t, s.threads[t]) && ThreadOk(s.sh, u, s.threads[u]);
    SharedMoves(s, t);
    var sh' := Next(s, t).sh;
    assert Quota(Next(s, t).threads[t]) <= sh'.taskCount && Shaped(Next(s, t).threads[t]);
    StackFacts(Next(s, t).threads[t]);
    hide Next;
    if Depth(s.threads[t]) > 0 {
      OthersIdle(s, t, u);
    }
    SameShare(s.sh, sh', t, u);
  }

  lemma StepExclusion(s: Sys, t: ThreadId)
    requires IsThread(s, t) && CanStep(s, t) && Inv(s)
    ensures Exclusion(Next(s, t))
  {
    assert ThreadOk(s.sh, t, s.threads[t]);
    StepOwn(s, t);
    NextChangesOne(s, t);
    var s' := Next(s, t);
    hide Next;
    forall u | 0 <= u < |s'.threads|
      ensures ThreadOk(s'.sh, u, s'.threads[u])
    {
      if u != t {
        OthersKept(s, t, u);
      }
    }
  }

  /** What the counter owes to this thread: it changes with the queue and with the thread's hands alone. */
  ghost predicate SameDebt(sh: Shared, st: Stack, sh': Shared, st': Stack) {
    sh'.taskCount - |sh'.tasks| - InHand(st') == sh.taskCount - |sh.tasks| - InHand(st)
  }

  lemma OpDebt(s: Sys, t: ThreadId, op: Op, rest: seq<Op>, below: Stack)
    requires IsThread(s, t)
    ensures SameDebt(s.sh, On(Run([op] + rest), below), NextOp(s, t, op, rest, below).sh,
            NextOp(s, t, op, rest, below).threads[t])
  {
    var base := On(Run(rest), below);
    assert InHand(base) == InHand(below);
    match op
    case Post(task) =>
    case Dispatch(task) => assert InHand(On(Inline, base)) == InHand(base);
    case TryLock(body) => assert InHand(On(Locked, base)) == InHand(base);
    case Guard(self, body) => assert InHand(On(Guarded(self), base)) == InHand(base);
  }

  lemma StepDebt(s: Sys, t: ThreadId)
    requires IsThread(s, t) && CanStep(s, t) && Shaped(s.threads[t])
    ensures SameDebt(s.sh, s.threads[t], Next(s, t).sh, Next(s, t).threads[t])
  {
    var st := s.threads[t];
    match st {
      case Idle =>
      case On(Run(ops), below) =>
        if ops != [] {
          assert [ops[0]] + ops[1..] == ops;
          OpDebt(s, t, ops[0], ops[1..], below);
        }
      case On(Flush(quota, popped), below) => assert InHand(below) == 0;
      case _ =>
    }
  }

  lemma StepCounted(s: Sys, t: ThreadId)
    requires IsThread(s, t) && CanStep(s, t) && Inv(s)
    ensures Counted(Next(s, t))
  {
    assert ThreadOk(s.sh, t, s.threads[t]);
    StepDebt(s, t);
    NextChangesOne(s, t);
    SumUpdate(InHand, s.threads, t, Next(s, t).threads[t]);
  }

  lemma NextChangesOne(s: Sys, t: ThreadId)
    requires IsThread(s, t) && CanStep(s, t)
    ensures Next(s, t).threads == s.threads[t := Next(s, t).threads[t]]
    ensures Next(s, t).workers == s.workers
  {}

  /** A step that leaves tasks counted and the strand unowned leaves, or finds, somebody to wake it. */
  lemma WakeupMoves(s: Sys, t: ThreadId)
    requires IsThread(s, t) && CanStep(s, t) && Shaped(s.threads[t]) && Depth(s.threads[t]) == Share(s.sh, t)
    requires 0 <= s.sh.taskCount && (s.sh.posted <==> s.sh.taskCount > 0)
    requires s.threads[t].On? && s.threads[t].top.Flush? ==> s.threads[t].top.quota <= s.sh.taskCount
    ensures var s' := Next(s, t);
            && (s'.sh.taskCount >= 0 ==> (s'.sh.posted <==> s'.sh.taskCount > 0))
            && (s'.sh.taskCount > 0 && s'.tokens <= 0 && s'.sh.owner == [] ==>
                  Carries(s'.threads[t])
                    || (s.sh.taskCount > 0 && s.tokens <= 0 && s.sh.owner == [] && !Carries(s.threads[t])))
  {
    match s.threads[t] {
      case Idle =>
      case On(Run(ops), below) =>
      case On(Flush(quota, popped), below) =>
        StackFacts(below);
      case On(_, below) =>
    }
  }

  lemma StepWakeup(s: Sys, t: ThreadId)
    requires IsThread(s, t) && CanStep(s, t) && Inv(s)
    ensures Wakeup(Next(s, t))
  {
    var s' := Next(s, t);
    assert ThreadOk(s.sh, t, s.threads[t]);
    StackFacts(s.threads[t]);
    if s.threads[t].On? && s.threads[t].top.Flush? {
      QuotaOfTop(s.threads[t]);
    }
    StepExclusion(s, t);
    NextChangesOne(s, t);
    assert ThreadOk(s'.sh, t, s'.threads[t]);
    StackFacts(s'.threads[t]);
    WakeupMoves(s, t);
    hide Next;
    if s'.sh.taskCount > 0 && s'.tokens <= 0 && s'.sh.owner == [] && !Carries(s'.threads[t]) {
      var u :| 0 <= u < |s.threads| && Carries(s.threads[u]);
      assert u != t && s'.threads[u] == s.threads[u];
    }
  }

  lemma QuotaOfTop(st: Stack)
    requires Shaped(st) && st.On? && st.top.Flush?
    ensures Quota(st) == st.top.quota
  {}

  /** A step begins a post, pushes the post it had begun, or does neither. */
  ghost predicate HistoryMoves(s: Sys, s': Sys, t: ThreadId)
    requires IsThread(s, t) && IsThread(s', t)
  {
    var c, c' := Carried(s.threads[t]), Carried(s'.threads[t]);
    || (s'.begun == s.begun && s'.enqueued == s.enqueued && c == c' == [])
    || (s'.enqueued == s.enqueued && c == [] && |c'| == 1 && c'[0].poster == t && s'.begun == s.begun + c')
    || (s'.begun == s.begun && c' == [] && |c| == 1 && s'.enqueued == s.enqueued + c)
  }

  lemma NextHistory(s: Sys, t: ThreadId)
    requires IsThread(s, t) && CanStep(s, t) && Shaped(s.threads[t])
    ensures HistoryMoves(s, Next(s, t), t)
  {
    match s.threads[t] {
      case Idle =>
      case On(Run(ops), below) =>
        SettledCarriesNothing(below);
      case On(_, below) =>
        SettledCarriesNothing(below);
    }
  }

  /** A frame below the top is never a half-done Post. */
  lemma SettledCarriesNothing(st: Stack)
    requires Settled(st)
    ensures Carried(st) == [] && !Carries(st)
  {}

  lemma StepQueue(s: Sys, t: ThreadId)
    requires IsThread(s, t) && CanStep(s, t) && s.executed + s.sh.tasks == s.enqueued
    ensures Next(s, t).executed + Next(s, t).sh.tasks == Next(s, t).enqueued
  {}

  /** One more entry in one of the histories, for every thread. */
  lemma HistoryOf(s: Sys, s': Sys, t: ThreadId, u: ThreadId)
    requires IsThread(s, t) && IsThread(s', t) && IsThread(s, u) && IsThread(s', u) && HistoryMoves(s, s', t)
    requires u != t ==> s'.threads[u] == s.threads[u]
    requires By(s.begun, u) == By(s.enqueued, u) + Carried(s.threads[u])
    requires forall e :: e in Carried(s.threads[u]) ==> e.poster == u
    requires forall e :: e in Carried(s.threads[t]) ==> e.poster == t
    ensures By(s'.begun, u) == By(s'.enqueued, u) + Carried(s'.threads[u])
    ensures forall e :: e in Carried(s'.threads[u]) ==> e.poster == u
  {
    hide By;
    hide Carried;
    var c, c' := Carried(s.threads[t]), Carried(s'.threads[t]);
    if s'.begun != s.begun {
      ByAppend(s.begun, c'[0], u);
      assert c' == [c'[0]];
    } else if s'.enqueued != s.enqueued {
      assert c[0] in c;
      ByAppend(s.enqueued, c[0], u);
      assert c == [c[0]];
    }
  }

  lemma StepOrdered(s: Sys, t: ThreadId)
    requires IsThread(s, t) && CanStep(s, t) && Inv(s)
    ensures Ordered(Next(s, t))
  {
    var s' := Next(s, t);
    assert ThreadOk(s.sh, t, s.threads[t]);
    NextChangesOne(s, t);
    StepQueue(s, t);
    NextHistory(s, t);
    hide Next;
    hide HistoryMoves;
    hide Carried;
    hide By;
    forall u | 0 <= u < |s'.threads|
      ensures By(s'.begun, u) == By(s'.enqueued, u) + Carried(s'.threads[u])
      ensures forall e :: e in Carried(s'.threads[u]) ==> e.poster == u
    {
      HistoryOf(s, s', t, u);
    }
  }

  lemma StepInv(s: Sys, t: ThreadId)
    requires IsThread(s, t) && CanStep(s, t) && Inv(s)
    ensures Inv(Next(s, t))
  {
    StepExclusion(s, t);
    StepCounted(s, t);
    StepWakeup(s, t);
    StepOrdered(s, t);
  }
}
