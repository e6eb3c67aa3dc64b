/** A chain of Then stages whose jobs run in any order on any executors, while any of its futures may be canceled. */
module FutureChains {
  /** How a callable or a completed context ends. */
  datatype Ended = Returns(value: int) | Threw(error: int)

  /** Stage `i` maps the value of future `i` to the end of future `i + 1`. */
  type Callable = int -> Ended

  datatype Context = Waiting | Completed(end: Ended) | Canceled

  /** A continuation: not registered, registered, its job posted, the job about to complete the next future, done. */
  datatype Stage = Unregistered | Registered | Posted | Running(end: Ended) | Finished

  /** `calls` is history: the arguments each callable was called with. */
  datatype Chain = Chain(contexts: seq<Context>, stages: seq<Stage>, calls: seq<seq<int>>)

  /** The exception of a Get on a canceled future. */
  const ABORTED := Threw(-1)

  datatype Action = Set(end: Ended) | Cancel(k: int) | Then(i: int) | Start(i: int) | Finish(i: int)

  ghost predicate Init(fs: seq<Callable>, s: Chain) {
    && |s.contexts| == |fs| + 1 && |s.stages| == |s.calls| == |fs|
    && (forall k :: 0 <= k <= |fs| ==> s.contexts[k] == Waiting)
    && (forall i :: 0 <= i < |fs| ==> s.stages[i] == Unregistered && s.calls[i] == [])
  }

  /** The future exists: Then on the one before has returned it. */
  predicate Exists(s: Chain, k: int)
    requires |s.contexts| == |s.stages| + 1
  {
    0 <= k < |s.contexts| && (k > 0 ==> s.stages[k - 1] != Unregistered)
  }

  predicate Enabled(s: Chain, a: Action)
    requires |s.contexts| == |s.stages| + 1
  {
    match a
    case Set(_) => s.contexts[0] == Waiting
    case Cancel(k) => Exists(s, k) && s.contexts[k] == Waiting
    case Then(i) => i < |s.stages| && Exists(s, i) && s.stages[i] == Unregistered
    case Start(i) => 0 <= i < |s.stages| && s.stages[i] == Posted
    case Finish(i) => 0 <= i < |s.stages| && s.stages[i].Running?
  }

  /** What Get gives. */
  function Seen(c: Context): Ended {
    match c
    case Completed(e) => e
    case _ => ABORTED
  }

  /** The error monad's bind: an exception passes by the callable. */
  function Bind(f: Callable, e: Ended): Ended {
    match e
    case Returns(v) => f(v)
    case Threw(_) => e
  }

  /** A context is completed or canceled, which runs the continuation if there is one: its job is posted. */
  function Settle(s: Chain, k: int, c: Context): Chain
    requires |s.contexts| == |s.stages| + 1 && 0 <= k < |s.contexts|
  {
    if s.contexts[k] != Waiting then s
    else
      var s' := s.(contexts := s.contexts[k := c]);
      if k < |s.stages| && s.stages[k] == Registered then s'.(stages := s.stages[k := Posted]) else s'
  }

  function Step(fs: seq<Callable>, s: Chain, a: Action): Chain
    requires |s.contexts| == |s.stages| + 1 && |s.stages| == |s.calls| == |fs| && Enabled(s, a)
  {
    match a
    case Set(e) => Settle(s, 0, Completed(e))
    case Cancel(k) => Settle(s, k, Canceled)
    case Then(i) => s.(stages := s.stages[i := if s.contexts[i] == Waiting then Registered else Posted])
    case Start(i) =>
      var e := Seen(s.contexts[i]);
      s.(stages := s.stages[i := Running(Bind(fs[i], e))],
        calls := s.calls[i := if e.Returns? then s.calls[i] + [e.value] else s.calls[i]])
    case Finish(i) => Settle(s.(stages := s.stages[i := Finished]), i + 1, Completed(s.stages[i].end))
  }

  // ---------------------------------------------------------------- what every state keeps

  predicate Open(c: Context) { c == Waiting || c == Canceled }

  /** A callable is called with its future's value, once, and not at all for an exception or a cancellation. */
  function Arguments(c: Context): seq<int> {
    if Seen(c).Returns? then [Seen(c).value] else []
  }

  /** One stage between its two futures. */
  predicate Linked(f: Callable, up: Context, stage: Stage, down: Context, calls: seq<int>) {
    match stage
    case Unregistered => down == Waiting && calls == []
    case Registered => up == Waiting && Open(down) && calls == []
    case Posted => up != Waiting && Open(down) && calls == []
    case Running(e) => up != Waiting && Open(down) && calls == Arguments(up) && e == Bind(f, Seen(up))
    case Finished =>
      && up != Waiting && calls == Arguments(up)
      && (down == Canceled || down == Completed(Bind(f, Seen(up))))
  }

  ghost predicate Inv(fs: seq<Callable>, s: Chain) {
    && |s.contexts| == |fs| + 1 && |s.stages| == |s.calls| == |fs|
    && forall i :: 0 <= i < |fs| ==> Linked(fs[i], s.contexts[i], s.stages[i], s.contexts[i + 1], s.calls[i])
  }

  /** Completing future `k` as its stage says, or canceling it, leaves every stage between its two futures. */
  lemma SettleLinked(fs: seq<Callable>, s: Chain, k: int, c: Context, i: int)
    requires Inv(fs, s) && Exists(s, k) && 0 <= i < |fs| && c != Waiting && (k == 0 || c == Canceled)
    ensures var s' := Settle(s, k, c); Linked(fs[i], s'.contexts[i], s'.stages[i], s'.contexts[i + 1], s'.calls[i])
  {
    assert Linked(fs[i], s.contexts[i], s.stages[i], s.contexts[i + 1], s.calls[i]);
  }

  lemma FinishLinked(fs: seq<Callable>, s: Chain, j: int, i: int)
    requires Inv(fs, s) && 0 <= i < |fs| && 0 <= j < |fs| && s.stages[j].Running?
    ensures var s' := Settle(s.(stages := s.stages[j := Finished]), j + 1, Completed(s.stages[j].end));
            Linked(fs[i], s'.contexts[i], s'.stages[i], s'.contexts[i + 1], s'.calls[i])
  {
    assert Linked(fs[i], s.contexts[i], s.stages[i], s.contexts[i + 1], s.calls[i]);
    assert Linked(fs[j], s.contexts[j], s.stages[j], s.contexts[j + 1], s.calls[j]);
  }

  lemma ThenLinked(fs: seq<Callable>, s: Chain, j: int, i: int)
    requires Inv(fs, s) && Enabled(s, Then(j)) && 0 <= i < |fs|
    ensures var s' := Step(fs, s, Then(j)); Linked(fs[i], s'.contexts[i], s'.stages[i], s'.contexts[i + 1], s'.calls[i])
  {
    assert Linked(fs[i], s.contexts[i], s.stages[i], s.contexts[i + 1], s.calls[i]);
  }

  lemma StartLinked(fs: seq<Callable>, s: Chain, j: int, i: int)
    requires Inv(fs, s) && Enabled(s, Start(j)) && 0 <= i < |fs|
    ensures var s' := Step(fs, s, Start(j));
            Linked(fs[i], s'.contexts[i], s'.stages[i], s'.contexts[i + 1], s'.calls[i])
  {
    assert Linked(fs[i], s.contexts[i], s.stages[i], s.contexts[i + 1], s.calls[i]);
  }

  lemma StepInv(fs: seq<Callable>, s: Chain, a: Action)
    requires Inv(fs, s) && Enabled(s, a)
    ensures Inv(fs, Step(fs, s, a))
  {
    hide Linked;
    hide Bind;
    hide Seen;
    var s' := Step(fs, s, a);
    forall i | 0 <= i < |fs|
      ensures Linked(fs[i], s'.contexts[i], s'.stages[i], s'.contexts[i + 1], s'.calls[i])
    {
      match a {
        case Set(e) => { SettleLinked(fs, s, 0, Completed(e), i); }
        case Cancel(k) => { SettleLinked(fs, s, k, Canceled, i); }
        case Finish(j) => { FinishLinked(fs, s, j, i); }
        case Then(j) => { ThenLinked(fs, s, j, i); }
        case Start(j) => { StartLinked(fs, s, j, i); }
      }
    }
  }

  // ---------------------------------------------------------------- runs

  ghost predicate IsRun(fs: seq<Callable>, states: seq<Chain>, actions: seq<Action>) {
    && |states| == |actions| + 1 && Init(fs, states[0])
    && forall j :: 0 <= j < |actions| ==> Stepped(fs, states[j], actions[j], states[j + 1])
  }

  ghost predicate Stepped(fs: seq<Callable>, s: Chain, a: Action, s': Chain) {
    Inv(fs, s) ==> Enabled(s, a) && s' == Step(fs, s, a)
  }

  lemma {:induction false} RunInv(fs: seq<Callable>, states: seq<Chain>, actions: seq<Action>, j: nat)
    requires IsRun(fs, states, actions) && j < |states|
    ensures Inv(fs, states[j])
  {
    if j > 0 {
      hide Inv;
      hide Step;
      RunInv(fs, states, actions, j - 1);
      assert Stepped(fs, states[j - 1], actions[j - 1], states[j - 1 + 1]);
      StepInv(fs, states[j - 1], actions[j - 1]);
    }
  }

  /** At every moment a callable has been called at most once, and with its future's value. */
  lemma CalledOnce(fs: seq<Callable>, states: seq<Chain>, actions: seq<Action>, j: nat, i: int)
    requires IsRun(fs, states, actions) && j < |states| && 0 <= i < |fs|
    ensures Inv(fs, states[j])
    ensures states[j].calls[i] == [] || (states[j].contexts[i].Completed? && states[j].contexts[i].end.Returns?
                                         && states[j].calls[i] == [states[j].contexts[i].end.value])
  {
    RunInv(fs, states, actions, j);
    var s := states[j];
    assert Linked(fs[i], s.contexts[i], s.stages[i], s.contexts[i + 1], s.calls[i]);
    hide IsRun;
  }

  /** Nothing is left to do: the first future has ended, all stages are registered and no job is posted or running. */
  ghost predicate Quiet(s: Chain) {
    && s.contexts != [] && s.contexts[0] != Waiting
    && forall i :: 0 <= i < |s.stages| ==> s.stages[i].Registered? || s.stages[i].Finished?
  }

  /** Every stage has finished. An uncanceled future ended as its callable did on the value of the future before, or
      with the exception of that. */
  lemma {:induction false} QuietIsDone(fs: seq<Callable>, s: Chain, k: nat)
    requires Inv(fs, s) && Quiet(s) && k <= |fs|
    ensures s.contexts[k] != Waiting
    ensures k < |fs| ==> s.stages[k] == Finished
    ensures k < |fs| && s.contexts[k + 1] != Canceled ==>
              && (forall v :: s.contexts[k] == Completed(Returns(v)) ==> s.contexts[k + 1] == Completed(fs[k](v)))
              && (forall x :: s.contexts[k] == Completed(Threw(x)) ==> s.contexts[k + 1] == Completed(Threw(x)))
              && (s.contexts[k] == Canceled ==> s.contexts[k + 1] == Completed(Threw(-1)))
    ensures k < |fs| ==>
              && (forall v :: s.contexts[k] == Completed(Returns(v)) ==> s.calls[k] == [v])
              && (!s.contexts[k].Completed? || s.contexts[k].end.Threw? ==> s.calls[k] == [])
    ensures k < |fs| ==>
              (s.contexts[k + 1] == Canceled || s.contexts[k + 1] == Completed(Bind(fs[k], Seen(s.contexts[k]))))
  {
    if k > 0 {
      QuietIsDone(fs, s, k - 1);
    }
    if k < |fs| {
      assert Linked(fs[k], s.contexts[k], s.stages[k], s.contexts[k + 1], s.calls[k]);
    }
  }

  /** Folding the callables in the error monad. */
  function Fold(fs: seq<Callable>, e: Ended): Ended {
    if fs == [] then e else Bind(fs[|fs| - 1], Fold(fs[..|fs| - 1], e))
  }

  lemma {:induction false} ErrorPasses(fs: seq<Callable>, e: Ended)
    requires e.Threw?
    ensures Fold(fs, e) == e
  {
    if fs != [] {
      ErrorPasses(fs[..|fs| - 1], e);
    }
  }

  predicate NoneCanceled(contexts: seq<Context>) {
    forall j :: 0 <= j < |contexts| ==> contexts[j] != Canceled
  }

  /** In a run that has come to rest, future `k` is the fold from the last canceled one before it, or from the first. */
  lemma {:induction false} RunFolds(fs: seq<Callable>, states: seq<Chain>, actions: seq<Action>, from: nat, k: nat)
    requires IsRun(fs, states, actions) && Quiet(states[|states| - 1]) && from <= k < |states[|states| - 1].contexts|
    requires NoneCanceled(states[|states| - 1].contexts[from + 1..k + 1])
    ensures Inv(fs, states[|states| - 1])
            && Seen(states[|states| - 1].contexts[k]) == Fold(fs[from..k], Seen(states[|states| - 1].contexts[from]))
    ensures states[|states| - 1].contexts[from] == Canceled ==> Seen(states[|states| - 1].contexts[k]) == ABORTED
    decreases k
  {
    var s := states[|states| - 1];
    RunInv(fs, states, actions, |states| - 1);
    if k > from {
      var cs := s.contexts[from + 1..k + 1];
      assert cs[k - 1 - from] == s.contexts[k] && cs[..k - 1 - from] == s.contexts[from + 1..k];
      RunFolds(fs, states, actions, from, k - 1);
      QuietIsDone(fs, s, k - 1);
      assert fs[from..k][..k - 1 - from] == fs[from..k - 1];
    }
    ErrorPasses(fs[from..k], ABORTED);
  }

  /** Callables that all return: `vs` are the value at the start of the stretch and what one after the other returns. */
  lemma {:induction false} StretchReturns(fs: seq<Callable>, states: seq<Chain>, actions: seq<Action>, from: nat,
                                          vs: seq<int>)
    requires IsRun(fs, states, actions) && Quiet(states[|states| - 1]) && vs != []
    requires from + |vs| <= |states[|states| - 1].contexts|
    requires NoneCanceled(states[|states| - 1].contexts[from + 1..from + |vs|])
    requires states[|states| - 1].contexts[from] == Completed(Returns(vs[0]))
    requires forall j :: 0 <= j < |vs| - 1 && from + j < |fs| ==> fs[from + j](vs[j]) == Returns(vs[j + 1])
    ensures states[|states| - 1].contexts[from + |vs| - 1] == Completed(Returns(vs[|vs| - 1]))
    decreases |vs|
  {
    var s, n := states[|states| - 1], |vs| - 1;
    RunInv(fs, states, actions, |states| - 1);
    if n > 0 {
      var cs := s.contexts[from + 1..from + |vs|];
      assert cs[n - 1] == s.contexts[from + n] && cs[..n - 1] == s.contexts[from + 1..from + n];
      StretchReturns(fs, states, actions, from, vs[..n]);
      QuietIsDone(fs, s, from + n - 1);
      hide Inv;
      assert fs[from + (n - 1)](vs[n - 1]) == Returns(vs[n]);
    }
  }

  /** Once one has thrown, all that follow end with its exception, and none of their callables is called. */
  lemma {:induction false} ThrownPasses(fs: seq<Callable>, states: seq<Chain>, actions: seq<Action>, from: nat, k: nat,
                                        x: int)
    requires IsRun(fs, states, actions) && Quiet(states[|states| - 1]) && from <= k < |states[|states| - 1].contexts|
    requires NoneCanceled(states[|states| - 1].contexts[from + 1..k + 1])
    requires states[|states| - 1].contexts[from] == Completed(Threw(x))
    ensures states[|states| - 1].contexts[k] == Completed(Threw(x))
    ensures |states[|states| - 1].calls| == |fs| && (k < |fs| ==> states[|states| - 1].calls[k] == [])
    decreases k
  {
    var s := states[|states| - 1];
    RunInv(fs, states, actions, |states| - 1);
    if k > from {
      var cs := s.contexts[from + 1..k + 1];
      assert cs[k - 1 - from] == s.contexts[k] && cs[..k - 1 - from] == s.contexts[from + 1..k];
      ThrownPasses(fs, states, actions, from, k - 1, x);
      QuietIsDone(fs, s, k - 1);
    }
    QuietIsDone(fs, s, k);
  }

  // ---------------------------------------------------------------- every run ends

  function StageLeft(st: Stage): nat {
    match st case Unregistered => 4 case Registered => 3 case Posted => 2 case Running(_) => 1 case Finished => 0
  }

  function StagesLeft(stages: seq<Stage>): nat {
    if stages == [] then 0 else StagesLeft(stages[..|stages| - 1]) + StageLeft(stages[|stages| - 1])
  }

  function ContextsLeft(contexts: seq<Context>): nat {
    if contexts == [] then 0
    else ContextsLeft(contexts[..|contexts| - 1]) + if contexts[|contexts| - 1] == Waiting then 1 else 0
  }

  lemma {:induction false} StagesUpdated(stages: seq<Stage>, i: int, st: Stage)
    requires 0 <= i < |stages|
    ensures StagesLeft(stages[i := st]) == StagesLeft(stages) - StageLeft(stages[i]) + StageLeft(st)
  {
    var n := |stages| - 1;
    if i < n {
      assert stages[i := st][..n] == stages[..n][i := st];
      StagesUpdated(stages[..n], i, st);
    } else {
      assert stages[i := st][..n] == stages[..n];
    }
  }

  lemma {:induction false} ContextsUpdated(contexts: seq<Context>, k: int, c: Context)
    requires 0 <= k < |contexts| && contexts[k] == Waiting && c != Waiting
    ensures ContextsLeft(contexts[k := c]) == ContextsLeft(contexts) - 1
  {
    var n := |contexts| - 1;
    if k < n {
      assert contexts[k := c][..n] == contexts[..n][k := c];
      ContextsUpdated(contexts[..n], k, c);
    } else {
      assert contexts[k := c][..n] == contexts[..n];
    }
  }

  function Left(s: Chain): nat { StagesLeft(s.stages) + ContextsLeft(s.contexts) }

  lemma SettleDecreases(s: Chain, k: int, c: Context)
    requires |s.contexts| == |s.stages| + 1 && 0 <= k < |s.contexts| && c != Waiting
    ensures Left(Settle(s, k, c)) <= Left(s) && (s.contexts[k] == Waiting ==> Left(Settle(s, k, c)) < Left(s))
  {
    hide StagesLeft;
    hide ContextsLeft;
    if s.contexts[k] == Waiting {
      ContextsUpdated(s.contexts, k, c);
      if k < |s.stages| && s.stages[k] == Registered {
        StagesUpdated(s.stages, k, Posted);
      }
    }
  }

  /** Every action brings the end nearer. */
  lemma StepDecreases(fs: seq<Callable>, s: Chain, a: Action)
    requires Inv(fs, s) && Enabled(s, a)
    ensures Left(Step(fs, s, a)) < Left(s)
  {
    hide StagesLeft;
    hide ContextsLeft;
    hide Linked;
    match a {
      case Set(e) => { SettleDecreases(s, 0, Completed(e)); }
      case Cancel(k) => { SettleDecreases(s, k, Canceled); }
      case Then(i) => { StagesUpdated(s.stages, i, if s.contexts[i] == Waiting then Registered else Posted); }
      case Start(i) => { StagesUpdated(s.stages, i, Running(Bind(fs[i], Seen(s.contexts[i])))); }
      case Finish(i) => {
        StagesUpdated(s.stages, i, Finished);
        SettleDecreases(s.(stages := s.stages[i := Finished]), i + 1, Completed(s.stages[i].end));
      }
    }
  }

  lemma {:induction false} RunIsBounded(fs: seq<Callable>, states: seq<Chain>, actions: seq<Action>, j: nat)
    requires IsRun(fs, states, actions) && j < |states|
    ensures j <= Left(states[0]) - Left(states[j])
  {
    if j > 0 {
      RunIsBounded(fs, states, actions, j - 1);
      RunInv(fs, states, actions, j - 1);
      hide Inv;
      hide Step;
      hide Left;
      hide Init;
      assert Stepped(fs, states[j - 1], actions[j - 1], states[j - 1 + 1]);
      StepDecreases(fs, states[j - 1], actions[j - 1]);
    }
  }
}
