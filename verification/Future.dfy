/** The completion race of a SharedContext: every interleaving of the single instructions of its members. */
module Futures {
  import opened Wrappers

  datatype Status = Pending | Complete | Canceled

  /** What a completer brings: OnSuccess, OnFailure or Cancel. */
  datatype Outcome = Success(value: int) | Failure(error: int) | Cancellation

  /** How a Get ends. Returned is the normal end of a void Get. */
  datatype Result = Value(value: int) | Rethrown(error: int) | AlreadyUsed | Aborted | Returned

  /** OnSuccess, OnFailure and Cancel: `has` tells whether the local continuation is one. */
  datatype CompleterAt = CStart | CLocked | CWon | CStored | CSwapped(has: bool) | CUnlocked(has: bool) | CLost
    | CDone(won: bool)

  /** SetContinuation: `keep` tells whether the function is still the caller's to run. */
  datatype RegistrarAt = RStart | RLocked | RSaw(pending: bool) | RHandled(keep: bool) | RUnlocked(keep: bool) | RDone

  datatype GetterAt = GStart | GSaw | GLocked | GRead(result: Result) | GDone(result: Result)

  datatype Thread =
    | Completer(c: CompleterAt, outcome: Outcome)
    | Registrar(r: RegistrarAt)
    | Getter(g: GetterAt)

  /** The completer whose compare-and-swap succeeded. */
  datatype Win = Win(t: int, outcome: Outcome, c: CompleterAt)

  /** The context. The last four fields are history: who won the race, which Get took the outcome, which thread has the
      continuation in its hands, and how often the continuation has run. */
  datatype Shared = Shared(
    isVoid: bool,
    mutex: Option<int>,
    status: Status,
    value: Option<int>,
    exception: Option<int>,
    continuation: bool,
    winner: Option<Win>,
    taker: Option<int>,
    holder: Option<int>,
    runs: int)

  datatype State = State(shared: Shared, threads: seq<Thread>)

  predicate AtStart(th: Thread) {
    (th.Completer? && th.c.CStart?) || (th.Registrar? && th.r.RStart?) || (th.Getter? && th.g.GStart?)
  }

  /** Nothing has happened, and at most one thread, the holder, comes with a continuation. */
  ghost predicate Init(s: State) {
    && s.shared == Shared(s.shared.isVoid, None, Pending, None, None, false, None, None, s.shared.holder, 0)
    && forall t :: 0 <= t < |s.threads| ==>
         AtStart(s.threads[t]) && (s.threads[t].Registrar? <==> s.shared.holder == Some(t))
  }

  predicate Done(th: Thread) {
    match th
    case Completer(c, _) => c.CDone?
    case Registrar(r) => r.RDone?
    case Getter(g) => g.GDone?
  }

  /** Inside a lock_guard. */
  predicate Critical(th: Thread) {
    match th
    case Completer(c, _) => c.CLocked? || c.CWon? || c.CStored? || c.CSwapped? || c.CLost?
    case Registrar(r) => r.RLocked? || r.RSaw? || r.RHandled?
    case Getter(g) => g.GLocked? || g.GRead?
  }

  /** A lock waits for the mutex, and Wait for the status to change. */
  predicate Enabled(sh: Shared, th: Thread) {
    match th
    case Completer(c, _) => !c.CDone? && (c.CStart? ==> sh.mutex == None)
    case Registrar(r) => !r.RDone? && (r.RStart? ==> sh.mutex == None)
    case Getter(g) => !g.GDone? && (g.GStart? ==> sh.status != Pending) && (g.GSaw? ==> sh.mutex == None)
  }

  function StatusOf(o: Outcome): Status { if o.Cancellation? then Canceled else Complete }

  /** One instruction of OnSuccess, OnFailure or Cancel on thread `t`. */
  function StepCompleter(sh: Shared, t: int, th: Thread): (Shared, Thread)
    requires th.Completer? && Enabled(sh, th)
  {
    var o := th.outcome;
    match th.c
    case CStart => (sh.(mutex := Some(t)), Completer(CLocked, o))
    case CLocked =>
      // compare_exchange_strong
      if sh.status == Pending then (sh.(status := StatusOf(o), winner := Some(Win(t, o, CWon))), Completer(CWon, o))
      else (sh, Completer(CLost, o))
    case CWon =>
      var sh' := sh.(winner := Some(Win(t, o, CStored)));
      (match o
       case Success(v) => (if sh.isVoid then sh' else sh'.(value := Some(v)), Completer(CStored, o))
       case Failure(e) => (sh'.(exception := Some(e)), Completer(CStored, o))
       case Cancellation => (sh', Completer(CStored, o)))
    case CStored =>
      var c := CSwapped(sh.continuation);
      (sh.(continuation := false, winner := Some(Win(t, o, c)),
        holder := if sh.continuation then Some(t) else sh.holder), Completer(c, o))
    case CSwapped(has) => (sh.(mutex := None, winner := Some(Win(t, o, CUnlocked(has)))), Completer(CUnlocked(has), o))
    case CUnlocked(has) =>
      var sh' := sh.(winner := Some(Win(t, o, CDone(true))));
      (if has then sh'.(runs := sh.runs + 1, holder := None) else sh', Completer(CDone(true), o))
    case CLost => (sh.(mutex := None), Completer(CDone(false), o))
  }

  /** One instruction of SetContinuation. */
  function StepRegistrar(sh: Shared, t: int, th: Thread): (Shared, Thread)
    requires th.Registrar? && Enabled(sh, th)
  {
    match th.r
    case RStart => (sh.(mutex := Some(t)), Registrar(RLocked))
    case RLocked => (sh, Registrar(RSaw(sh.status == Pending)))
    case RSaw(pending) =>
      (if pending then sh.(continuation := true, holder := None) else sh, Registrar(RHandled(!pending)))
    case RHandled(keep) => (sh.(mutex := None), Registrar(RUnlocked(keep)))
    case RUnlocked(keep) => (if keep then sh.(runs := sh.runs + 1, holder := None) else sh, Registrar(RDone))
  }

  /** The locked part of Get: an exception is taken and rethrown, a value is taken. */
  function Answer(sh: Shared): Result {
    if sh.exception.Some? then Rethrown(sh.exception.value)
    else if sh.isVoid then Returned
    else if sh.value.Some? then Value(sh.value.value)
    else AlreadyUsed
  }

  /** One instruction of Get. */
  function StepGetter(sh: Shared, t: int, th: Thread): (Shared, Thread)
    requires th.Getter? && Enabled(sh, th)
  {
    match th.g
    case GStart => (sh, Getter(if sh.status == Complete then GSaw else GDone(Aborted)))
    case GSaw => (sh.(mutex := Some(t)), Getter(GLocked))
    case GLocked =>
      var res := Answer(sh);
      var sh' := if res.Rethrown? then sh.(exception := None, taker := Some(t))
        else if res.Value? then sh.(value := None, taker := Some(t)) else sh;
      (sh', Getter(GRead(res)))
    case GRead(res) => (sh.(mutex := None), Getter(GDone(res)))
  }

  function StepThread(sh: Shared, t: int, th: Thread): (Shared, Thread)
    requires Enabled(sh, th)
  {
    match th
    case Completer(_, _) => StepCompleter(sh, t, th)
    case Registrar(_) => StepRegistrar(sh, t, th)
    case Getter(_) => StepGetter(sh, t, th)
  }

  predicate CanStep(s: State, t: int) { 0 <= t < |s.threads| && Enabled(s.shared, s.threads[t]) }

  function Step(s: State, t: int): State
    requires CanStep(s, t)
  {
    var (sh, th) := StepThread(s.shared, t, s.threads[t]);
    State(sh, s.threads[t := th])
  }

  // ---------------------------------------------------------------- what every state keeps

  predicate HasWon(th: Thread) {
    th.Completer? && (th.c.CWon? || th.c.CStored? || th.c.CSwapped? || th.c.CUnlocked? || th.c == CDone(true))
  }

  /** The thread has the continuation in its hands. */
  predicate Holds(th: Thread) {
    match th
    case Completer(c, _) => (c.CSwapped? && c.has) || (c.CUnlocked? && c.has)
    case Registrar(r) => r.RStart? || r.RLocked? || r.RSaw? || (r.RHandled? && r.keep) || (r.RUnlocked? && r.keep)
    case Getter(_) => false
  }

  /** The winner has stored its outcome. */
  predicate Stored(sh: Shared) { sh.winner.Some? && !sh.winner.value.c.CWon? }

  /** The outcome is in the context from when it is stored until one Get has taken it. */
  predicate Kept(sh: Shared) {
    if !Stored(sh) then sh.value == None && sh.exception == None && sh.taker == None
    else
      match sh.winner.value.outcome
      case Success(v) =>
        sh.exception == None && (if sh.isVoid || sh.taker.Some? then sh.value == None else sh.value == Some(v))
          && (sh.isVoid ==> sh.taker == None)
      case Failure(e) => sh.value == None && sh.exception == if sh.taker.Some? then None else Some(e)
      case Cancellation => sh.value == None && sh.exception == None && sh.taker == None
  }

  /** The continuation is in one place: in a thread's hands, in the context, or it has run. It runs only when the status
      has changed, and by then is left in the context only while the winner has not come to take it out. */
  predicate OnePlace(sh: Shared) {
    && (sh.runs == 0 || sh.runs == 1)
    && !(sh.holder.Some? && sh.continuation) && !(sh.holder.Some? && sh.runs == 1) && !(sh.continuation && sh.runs == 1)
    && (sh.runs == 1 ==> sh.status != Pending)
    && (sh.continuation && sh.status != Pending ==>
         sh.winner.Some? && (sh.winner.value.c.CWon? || sh.winner.value.c.CStored?))
  }

  predicate SharedInv(sh: Shared) {
    && (sh.status == Pending <==> sh.winner.None?)
    && (sh.winner.Some? ==> sh.status == StatusOf(sh.winner.value.outcome))
    && (sh.winner.Some? && !sh.winner.value.c.CUnlocked? && !sh.winner.value.c.CDone? ==>
         sh.mutex == Some(sh.winner.value.t))
    && Kept(sh) && OnePlace(sh)
  }

  /** What a Get may end with, given who won and who took the outcome. */
  predicate Justified(sh: Shared, t: int, res: Result) {
    match res
    case Aborted => sh.status == Canceled
    case Value(v) => sh.taker == Some(t) && Stored(sh) && sh.winner.value.outcome == Success(v)
    case Rethrown(e) => sh.taker == Some(t) && Stored(sh) && sh.winner.value.outcome == Failure(e)
    case AlreadyUsed => !sh.isVoid && Stored(sh) && sh.taker.Some? && sh.taker != Some(t)
    case Returned =>
      && sh.isVoid && Stored(sh)
      && (sh.winner.value.outcome.Success? || (sh.taker.Some? && sh.taker != Some(t)))
  }

  function ResultOf(th: Thread): Option<Result> {
    if th.Getter? && th.g.GRead? then Some(th.g.result) else if th.Getter? && th.g.GDone? then Some(th.g.result)
    else None
  }

  predicate Timely(r: RegistrarAt, status: Status) {
    match r
    case RSaw(pending) => pending <==> status == Pending
    case RHandled(keep) => keep ==> status != Pending
    case RUnlocked(keep) => keep ==> status != Pending
    case _ => true
  }

  /** Thread `t` and the context agree. */
  predicate Fits(sh: Shared, t: int, th: Thread) {
    && (Critical(th) <==> sh.mutex == Some(t))
    && (HasWon(th) <==> sh.winner.Some? && sh.winner.value.t == t)
    && (HasWon(th) ==> sh.winner.value == Win(t, th.outcome, th.c))
    && (Holds(th) <==> sh.holder == Some(t))
    && match th
       case Completer(c, _) => (c.CLost? || c == CDone(false) ==> sh.status != Pending) && sh.taker != Some(t)
       case Registrar(r) => Timely(r, sh.status) && sh.taker != Some(t)
         && (sh.holder.Some? || sh.continuation || sh.runs == 1)
       case Getter(g) =>
         && (g.GSaw? || g.GLocked? ==> sh.status == Complete)
         && (ResultOf(th).Some? ==> Justified(sh, t, ResultOf(th).value))
         && (sh.taker == Some(t) ==> ResultOf(th).Some? && (ResultOf(th).value.Value? || ResultOf(th).value.Rethrown?))
  }

  ghost predicate Inv(s: State) {
    && SharedInv(s.shared)
    && (s.shared.mutex.Some? ==> 0 <= s.shared.mutex.value < |s.threads|)
    && (s.shared.winner.Some? ==> 0 <= s.shared.winner.value.t < |s.threads|)
    && (s.shared.holder.Some? ==> 0 <= s.shared.holder.value < |s.threads|)
    && (s.shared.taker.Some? ==> 0 <= s.shared.taker.value < |s.threads|)
    && forall t :: 0 <= t < |s.threads| ==> Fits(s.shared, t, s.threads[t])
  }

  /** The acting thread still agrees with the context. */
  lemma StepFits(sh: Shared, t: int, th: Thread)
    requires Enabled(sh, th) && SharedInv(sh) && Fits(sh, t, th)
    ensures var (sh', th') := StepThread(sh, t, th); Fits(sh', t, th')
  {}

  lemma CompleterShared(sh: Shared, t: int, th: Thread)
    requires th.Completer? && Enabled(sh, th) && SharedInv(sh) && Fits(sh, t, th)
    ensures SharedInv(StepCompleter(sh, t, th).0)
  {}

  lemma RegistrarShared(sh: Shared, t: int, th: Thread)
    requires th.Registrar? && Enabled(sh, th) && SharedInv(sh) && Fits(sh, t, th)
    ensures SharedInv(StepRegistrar(sh, t, th).0)
  {}

  lemma GetterShared(sh: Shared, t: int, th: Thread)
    requires th.Getter? && Enabled(sh, th) && SharedInv(sh) && Fits(sh, t, th)
    ensures SharedInv(StepGetter(sh, t, th).0)
  {}

  lemma StepShared(sh: Shared, t: int, th: Thread)
    requires Enabled(sh, th) && SharedInv(sh) && Fits(sh, t, th)
    ensures SharedInv(StepThread(sh, t, th).0)
  {
    if th.Completer? {
      CompleterShared(sh, t, th);
    } else if th.Registrar? {
      RegistrarShared(sh, t, th);
    } else {
      GetterShared(sh, t, th);
    }
    hide SharedInv;
    hide Fits;
  }

  lemma CompleterStable(sh: Shared, t: int, th: Thread, u: int, other: Thread)
    requires th.Completer? && Enabled(sh, th) && SharedInv(sh) && Fits(sh, t, th) && u != t && Fits(sh, u, other)
    ensures Fits(StepCompleter(sh, t, th).0, u, other)
  {}

  lemma RegistrarStable(sh: Shared, t: int, th: Thread, u: int, other: Thread)
    requires th.Registrar? && Enabled(sh, th) && SharedInv(sh) && Fits(sh, t, th) && u != t && Fits(sh, u, other)
    ensures Fits(StepRegistrar(sh, t, th).0, u, other)
  {}

  lemma GetterStable(sh: Shared, t: int, th: Thread, u: int, other: Thread)
    requires th.Getter? && Enabled(sh, th) && SharedInv(sh) && Fits(sh, t, th) && u != t && Fits(sh, u, other)
    ensures Fits(StepGetter(sh, t, th).0, u, other)
  {}

  /** Every other thread still agrees with the context. */
  lemma StepStable(sh: Shared, t: int, th: Thread, u: int, other: Thread)
    requires Enabled(sh, th) && SharedInv(sh) && Fits(sh, t, th) && u != t && Fits(sh, u, other)
    ensures Fits(StepThread(sh, t, th).0, u, other)
  {
    if th.Completer? {
      CompleterStable(sh, t, th, u, other);
    } else if th.Registrar? {
      RegistrarStable(sh, t, th, u, other);
    } else {
      GetterStable(sh, t, th, u, other);
    }
    hide SharedInv;
    hide Fits;
  }

  lemma InitInv(s: State)
    requires Init(s) && (s.shared.holder.Some? ==> 0 <= s.shared.holder.value < |s.threads|)
    ensures Inv(s)
  {}

  lemma StepInv(s: State, t: int)
    requires CanStep(s, t) && Inv(s)
    ensures Inv(Step(s, t))
  {
    var sh, th, s' := s.shared, s.threads[t], Step(s, t);
    StepFits(sh, t, th);
    StepShared(sh, t, th);
    StepNames(sh, t, th);
    forall u | 0 <= u < |s'.threads|
      ensures Fits(s'.shared, u, s'.threads[u])
    {
      if u != t {
        hide Fits;
        StepStable(sh, t, th, u, s.threads[u]);
      }
    }
    hide SharedInv;
    hide Fits;
    hide StepThread;
    hide Enabled;
  }

  /** Whoever a field names, it was named before or is the acting thread. */
  lemma StepNames(sh: Shared, t: int, th: Thread)
    requires Enabled(sh, th) && (HasWon(th) <==> sh.winner.Some? && sh.winner.value.t == t)
    ensures var sh' := StepThread(sh, t, th).0;
            && (sh'.mutex.Some? ==> sh'.mutex == sh.mutex || sh'.mutex.value == t)
            && (sh'.winner.Some? ==>
                 (sh.winner.Some? && sh'.winner.value.t == sh.winner.value.t) || sh'.winner.value.t == t)
            && (sh'.holder.Some? ==> sh'.holder == sh.holder || sh'.holder.value == t)
            && (sh'.taker.Some? ==> sh'.taker == sh.taker || sh'.taker.value == t)
  {}

  // ---------------------------------------------------------------- runs

  ghost predicate IsRun(states: seq<State>) {
    && states != [] && Init(states[0])
    && (states[0].shared.holder.Some? ==> 0 <= states[0].shared.holder.value < |states[0].threads|)
    && forall i :: 0 <= i < |states| - 1 ==> StepsTo(states[i], states[i + 1])
  }

  ghost predicate StepsTo(s: State, s': State) {
    exists t :: CanStep(s, t) && s' == Step(s, t)
  }

  lemma {:induction false} RunInv(states: seq<State>, i: nat)
    requires IsRun(states) && i < |states|
    ensures Inv(states[i])
  {
    hide Inv;
    if i == 0 {
      InitInv(states[0]);
    } else {
      RunInv(states, i - 1);
      assert StepsTo(states[i - 1], states[i]);
      var t :| CanStep(states[i - 1], t) && states[i] == Step(states[i - 1], t);
      StepInv(states[i - 1], t);
    }
  }

  /** At every moment of every run: one completer at most wins; the continuation has run at most once, and never while
      the context is pending; one Get at most has the value or the exception, and it is the winner's. */
  lemma RunSafe(states: seq<State>, i: nat, t: int, u: int)
    requires IsRun(states) && i < |states| && 0 <= t < |states[i].threads| && 0 <= u < |states[i].threads|
    ensures var s := states[i];
            && (HasWon(s.threads[t]) && HasWon(s.threads[u]) ==> t == u)
            && (s.shared.status != Pending <==> s.shared.winner.Some?)
            && s.shared.runs <= 1 && (s.shared.runs == 1 ==> s.shared.status != Pending)
            && (TookOutcome(s.threads[t]) && TookOutcome(s.threads[u]) ==> t == u)
            && (TookOutcome(s.threads[t]) && HasWon(s.threads[u]) ==>
                 ResultOf(s.threads[t]).value == Outright(s.threads[u].outcome))
  {
    RunInv(states, i);
    var s := states[i];
    assert Fits(s.shared, t, s.threads[t]) && Fits(s.shared, u, s.threads[u]);
    hide Inv;
    hide IsRun;
  }

  predicate TookOutcome(th: Thread) {
    ResultOf(th).Some? && (ResultOf(th).value.Value? || ResultOf(th).value.Rethrown?)
  }

  function Outright(o: Outcome): Result {
    match o
    case Success(v) => Value(v)
    case Failure(e) => Rethrown(e)
    case Cancellation => Aborted
  }

  ghost predicate OtherTook(s: State, t: int) {
    exists u :: 0 <= u < |s.threads| && u != t && TookOutcome(s.threads[u])
  }

  /** How a Get ends when the winner brought `o` and another Get has, or has not, taken it. */
  function Expected(isVoid: bool, o: Outcome, taken: bool): Result {
    match o
    case Cancellation => Aborted
    case Success(v) => if isVoid then Returned else if taken then AlreadyUsed else Value(v)
    case Failure(e) => if !taken then Rethrown(e) else if isVoid then Returned else AlreadyUsed
  }

  /** At every moment of every run, how a Get ended is settled by the winner and by whether another Get took the
      outcome. In particular a void Get after a failure returns normally exactly when another Get has taken the
      exception. */
  lemma RunAnswers(states: seq<State>, i: nat, t: int)
    requires IsRun(states) && i < |states| && 0 <= t < |states[i].threads| && ResultOf(states[i].threads[t]).Some?
    ensures var s := states[i];
            && s.shared.winner.Some?
            && ResultOf(s.threads[t]).value == Expected(s.shared.isVoid, s.shared.winner.value.outcome, OtherTook(s, t))
    ensures var s := states[i];
            s.shared.isVoid && s.shared.winner.value.outcome.Failure? ==>
              (ResultOf(s.threads[t]) == Some(Returned) <==> OtherTook(s, t))
  {
    RunInv(states, i);
    hide IsRun;
    AnswersFit(states[i], t);
  }

  lemma AnswersFit(s: State, t: int)
    requires Inv(s) && 0 <= t < |s.threads| && ResultOf(s.threads[t]).Some?
    ensures s.shared.winner.Some?
    ensures ResultOf(s.threads[t]).value == Expected(s.shared.isVoid, s.shared.winner.value.outcome, OtherTook(s, t))
  {
    assert Fits(s.shared, t, s.threads[t]);
    TakerIsKnown(s, t);
    hide OtherTook;
    hide Inv;
  }

  /** The history field names exactly the Get that has the outcome. */
  lemma TakerIsKnown(s: State, t: int)
    requires Inv(s)
    ensures OtherTook(s, t) <==> s.shared.taker.Some? && s.shared.taker != Some(t)
  {
    if s.shared.taker.Some? {
      var u := s.shared.taker.value;
      assert Fits(s.shared, u, s.threads[u]);
    }
    forall u | 0 <= u < |s.threads| && TookOutcome(s.threads[u])
      ensures s.shared.taker == Some(u)
    {
      assert Fits(s.shared, u, s.threads[u]);
    }
  }

  /** A Get that saw Complete and holds the mutex finds a stored outcome, or one that another Get has taken. */
  lemma NeverUnset(states: seq<State>, i: nat, t: int)
    requires IsRun(states) && i < |states| && 0 <= t < |states[i].threads| && states[i].threads[t] == Getter(GLocked)
    ensures var sh := states[i].shared;
            && sh.status == Complete && Stored(sh)
            && (sh.taker.None? ==> Answer(sh) == if sh.isVoid && sh.winner.value.outcome.Success? then Returned
                 else Outright(sh.winner.value.outcome))
            && (sh.taker.Some? ==> Answer(sh) == if sh.isVoid then Returned else AlreadyUsed)
  {
    RunInv(states, i);
    var s := states[i];
    assert Fits(s.shared, t, s.threads[t]);
    hide Inv;
    hide IsRun;
  }

  // ---------------------------------------------------------------- a void Get after a failure

  /** One more step of a run, of thread `t`. */
  lemma Moved(states: seq<State>, s: State, t: int, sh: Shared, th: Thread) returns (longer: seq<State>, s': State)
    requires IsRun(states) && s == states[|states| - 1] && CanStep(s, t)
             && StepThread(s.shared, t, s.threads[t]) == (sh, th)
    ensures IsRun(longer) && s' == longer[|longer| - 1] == State(sh, s.threads[t := th])
  {
    hide StepThread;
    hide Init;
    s' := Step(s, t);
    longer := states + [s'];
    forall i | 0 <= i < |longer| - 1
      ensures StepsTo(longer[i], longer[i + 1])
    {
      if i < |states| - 1 {
        assert StepsTo(states[i], states[i + 1]);
      }
    }
  }

  /** A void context in the hands of one OnFailure and two Gets. */
  function Failing(mutex: Option<int>, status: Status, exception: Option<int>, winner: Option<Win>,
                   taker: Option<int>): Shared {
    Shared(true, mutex, status, None, exception, false, winner, taker, None, 0)
  }

  lemma FailureCompletes(e: int) returns (states: seq<State>, s: State)
    ensures IsRun(states) && s == states[|states| - 1]
    ensures s == State(Failing(None, Complete, Some(e), Some(Win(0, Failure(e), CDone(true))), None),
                       [Completer(CDone(true), Failure(e)), Getter(GStart), Getter(GStart)])
  {
    var o := Failure(e);
    s := State(Failing(None, Pending, None, None, None), [Completer(CStart, o), Getter(GStart), Getter(GStart)]);
    states := [s];
    states, s := Moved(states, s, 0, Failing(Some(0), Pending, None, None, None), Completer(CLocked, o));
    states, s := Moved(states, s, 0, Failing(Some(0), Complete, None, Some(Win(0, o, CWon)), None), Completer(CWon, o));
    states, s := Moved(states, s, 0, Failing(Some(0), Complete, Some(e), Some(Win(0, o, CStored)), None),
      Completer(CStored, o));
    var c := CSwapped(false);
    states, s := Moved(states, s, 0, Failing(Some(0), Complete, Some(e), Some(Win(0, o, c)), None), Completer(c, o));
    c := CUnlocked(false);
    states, s := Moved(states, s, 0, Failing(None, Complete, Some(e), Some(Win(0, o, c)), None), Completer(c, o));
    c := CDone(true);
    states, s := Moved(states, s, 0, Failing(None, Complete, Some(e), Some(Win(0, o, c)), None), Completer(c, o));
  }

  /** The whole of the Get on thread `t` from a settled context that holds `exception`. */
  lemma GetRuns(states: seq<State>, s: State, t: int, e: int, exception: Option<int>, taker: Option<int>)
    returns (longer: seq<State>, s': State)
    requires IsRun(states) && s == states[|states| - 1] && 0 <= t < |s.threads| && s.threads[t] == Getter(GStart)
    requires s.shared == Failing(None, Complete, exception, Some(Win(0, Failure(e), CDone(true))), taker)
    ensures IsRun(longer) && s' == longer[|longer| - 1]
    ensures var res := if exception.Some? then Rethrown(exception.value) else Returned;
            s' == State(Failing(None, Complete, None, Some(Win(0, Failure(e), CDone(true))),
              if exception.Some? then Some(t) else taker),
                        s.threads[t := Getter(GDone(res))])
  {
    hide IsRun;
    var w := Some(Win(0, Failure(e), CDone(true)));
    var res := if exception.Some? then Rethrown(exception.value) else Returned;
    var taker' := if exception.Some? then Some(t) else taker;
    longer, s' := Moved(states, s, t, s.shared, Getter(GSaw));
    longer, s' := Moved(longer, s', t, Failing(Some(t), Complete, exception, w, taker), Getter(GLocked));
    longer, s' := Moved(longer, s', t, Failing(Some(t), Complete, None, w, taker'), Getter(GRead(res)));
    longer, s' := Moved(longer, s', t, Failing(None, Complete, None, w, taker'), Getter(GDone(res)));
    assert s'.threads == s.threads[t := Getter(GDone(res))];
  }

  /** It happens: for every exception there is a run in which one void Get rethrows it and another returns normally. */
  lemma ReturnsAfterFailure(e: int) returns (states: seq<State>)
    ensures IsRun(states)
    ensures states[|states| - 1].threads ==
            [Completer(CDone(true), Failure(e)), Getter(GDone(Rethrown(e))), Getter(GDone(Returned))]
    ensures states[|states| - 1].shared.isVoid
  {
    var s;
    states, s := FailureCompletes(e);
    states, s := GetRuns(states, s, 1, e, Some(e), None);
    states, s := GetRuns(states, s, 2, e, None, Some(1));
  }

  // ---------------------------------------------------------------- every run ends

  function Left(th: Thread): nat {
    match th
    case Completer(c, _) =>
      (match c
       case CStart => 7 case CLocked => 6 case CWon => 4 case CStored => 3 case CSwapped(_) => 2 case CUnlocked(_) => 1
         case CLost => 1 case CDone(_) => 0)
    case Registrar(r) => (match r case RStart => 5 case RLocked => 4 case RSaw(_) => 3 case RHandled(_) => 2
      case RUnlocked(_) => 1 case RDone => 0)
    case Getter(g) => (match g case GStart => 4 case GSaw => 3 case GLocked => 2 case GRead(_) => 1 case GDone(_) => 0)
  }

  function TotalLeft(threads: seq<Thread>): nat {
    if threads == [] then 0 else Left(threads[0]) + TotalLeft(threads[1..])
  }

  lemma {:induction false} LeftUpdated(threads: seq<Thread>, t: int, th: Thread)
    requires 0 <= t < |threads|
    ensures TotalLeft(threads[t := th]) == TotalLeft(threads) - Left(threads[t]) + Left(th)
  {
    if t == 0 {
      assert threads[0 := th][1..] == threads[1..];
    } else {
      assert threads[t := th][1..] == threads[1..][t - 1 := th];
      LeftUpdated(threads[1..], t - 1, th);
    }
  }

  /** Every instruction brings the end nearer; a Get that waits takes none. */
  lemma StepDecreases(s: State, t: int)
    requires CanStep(s, t)
    ensures TotalLeft(Step(s, t).threads) < TotalLeft(s.threads)
  {
    var th := StepThread(s.shared, t, s.threads[t]).1;
    assert Left(th) < Left(s.threads[t]);
    hide StepThread;
    LeftUpdated(s.threads, t, th);
  }

  lemma {:induction false} RunIsBounded(states: seq<State>)
    requires IsRun(states)
    ensures |states| - 1 <= TotalLeft(states[0].threads) - TotalLeft(states[|states| - 1].threads)
  {
    if |states| > 1 {
      RunPrefix(states);
      hide IsRun;
      var s := states[|states| - 2];
      RunIsBounded(states[..|states| - 1]);
      var t :| CanStep(s, t) && states[|states| - 1] == Step(s, t);
      StepDecreases(s, t);
    }
  }

  lemma RunPrefix(states: seq<State>)
    requires IsRun(states) && |states| > 1
    ensures IsRun(states[..|states| - 1]) && StepsTo(states[|states| - 2], states[|states| - 1])
  {
    hide Init;
    hide StepsTo;
    assert StepsTo(states[|states| - 2], states[|states| - 2 + 1]);
  }

  /** Whoever has the mutex can go on. */
  lemma LockerCanStep(s: State)
    requires Inv(s) && s.shared.mutex.Some?
    ensures CanStep(s, s.shared.mutex.value)
  {
    var u := s.shared.mutex.value;
    assert Fits(s.shared, u, s.threads[u]);
  }

  /** No deadlock: where no thread can go on, all are done, or the context was never completed and only Gets wait. */
  lemma StuckIsDone(s: State, t: int)
    requires Inv(s) && 0 <= t < |s.threads| && forall u :: 0 <= u < |s.threads| ==> !CanStep(s, u)
    ensures s.shared.mutex == None
    ensures Done(s.threads[t]) || (s.threads[t] == Getter(GStart) && s.shared.status == Pending)
  {
    if s.shared.mutex.Some? {
      LockerCanStep(s);
      assert false;
    }
    assert Fits(s.shared, t, s.threads[t]) && !CanStep(s, t);
  }

  /** A run that has stopped, with a completer and a registrar: the race has one winner, the continuation ran. */
  lemma RunSettles(states: seq<State>, c: int, r: int)
    requires IsRun(states)
    requires var s := states[|states| - 1];
             && 0 <= c < |s.threads| && s.threads[c].Completer? && 0 <= r < |s.threads| && s.threads[r].Registrar?
             && forall u :: 0 <= u < |s.threads| ==> !CanStep(s, u)
    ensures var s := states[|states| - 1];
            && s.shared.status != Pending && s.shared.runs == 1 && !s.shared.continuation
            && (forall t :: 0 <= t < |s.threads| ==> Done(s.threads[t]))
            && (exists w ::
                  && 0 <= w < |s.threads| && HasWon(s.threads[w])
                  && forall t :: 0 <= t < |s.threads| && HasWon(s.threads[t]) ==> t == w)
  {
    var s := states[|states| - 1];
    RunInv(states, |states| - 1);
    hide IsRun;
    StuckIsDone(s, c);
    Settled(s, c);
    forall t | 0 <= t < |s.threads|
      ensures Done(s.threads[t])
    {
      StuckIsDone(s, t);
    }
    PlacedAtEnd(s, r);
    WinnerIs(s);
  }

  lemma Settled(s: State, c: int)
    requires Inv(s) && 0 <= c < |s.threads| && s.threads[c].Completer? && Done(s.threads[c])
    ensures s.shared.status != Pending
  {
    assert Fits(s.shared, c, s.threads[c]);
  }

  lemma WinnerIs(s: State)
    requires Inv(s) && s.shared.status != Pending
    ensures exists w ::
              && 0 <= w < |s.threads| && HasWon(s.threads[w])
              && forall t :: 0 <= t < |s.threads| && HasWon(s.threads[t]) ==> t == w
  {
    var w := s.shared.winner.value.t;
    assert Fits(s.shared, w, s.threads[w]);
    forall t | 0 <= t < |s.threads| && HasWon(s.threads[t])
      ensures t == w
    {
      assert Fits(s.shared, t, s.threads[t]);
    }
  }

  lemma PlacedAtEnd(s: State, r: int)
    requires Inv(s) && 0 <= r < |s.threads| && s.threads[r].Registrar? && s.shared.status != Pending
    requires forall t :: 0 <= t < |s.threads| ==> Done(s.threads[t])
    ensures s.shared.runs == 1 && !s.shared.continuation
  {
    assert Fits(s.shared, r, s.threads[r]);
    var w := s.shared.winner.value.t;
    assert Fits(s.shared, w, s.threads[w]) && Done(s.threads[w]);
    if s.shared.holder.Some? {
      HolderGoesOn(s);
      assert false;
    }
  }

  lemma HolderGoesOn(s: State)
    requires Inv(s) && s.shared.holder.Some?
    ensures 0 <= s.shared.holder.value < |s.threads| && !Done(s.threads[s.shared.holder.value])
  {
    var u := s.shared.holder.value;
    assert Fits(s.shared, u, s.threads[u]);
  }

  // ---------------------------------------------------------------- the members themselves

  /** Between instructions the mutex is free or the thread's own, and a Get does not wait. */
  predicate Ready(sh: Shared, t: int, th: Thread) {
    sh.mutex == (if Critical(th) then Some(t) else None) && (th == Getter(GStart) ==> sh.status != Pending)
  }

  lemma ReadyStays(sh: Shared, t: int, th: Thread)
    requires Ready(sh, t, th) && !Done(th)
    ensures Enabled(sh, th)
    ensures var (sh', th') := StepThread(sh, t, th); Ready(sh', t, th') && Left(th') < Left(th)
  {}

  /** All the instructions of one thread, with nothing in between. */
  ghost function Alone(sh: Shared, t: int, th: Thread): (Shared, Thread)
    requires Ready(sh, t, th)
    decreases Left(th)
  {
    if Done(th) then (sh, th)
    else
      ReadyStays(sh, t, th);
      var (sh', th') := StepThread(sh, t, th);
      Alone(sh', t, th')
  }

  lemma AloneStep(sh: Shared, t: int, th: Thread)
    requires Ready(sh, t, th) && !Done(th)
    ensures Enabled(sh, th)
    ensures var (sh', th') := StepThread(sh, t, th); Ready(sh', t, th') && Alone(sh, t, th) == Alone(sh', t, th')
  {
    ReadyStays(sh, t, th);
    hide StepThread;
  }

  lemma AloneDone(sh: Shared, t: int, th: Thread)
    requires Ready(sh, t, th) && Done(th)
    ensures Alone(sh, t, th) == (sh, th)
  {}

  /** The context with its members as written; `runs` counts the calls of the continuation. */
  class SharedContext {
    var isVoid: bool
    var status: Status
    var value: Option<int>
    var exception: Option<int>
    var continuation: bool
    var runs: int
    ghost var winner: Option<Win>
    ghost var taker: Option<int>
    ghost var holder: Option<int>

    ghost function View(mutex: Option<int>): Shared
      reads this
    {
      Shared(isVoid, mutex, status, value, exception, continuation, winner, taker, holder, runs)
    }

    /** OnSuccess, OnFailure or Cancel on thread `t`: whether it is the one that completed the context. */
    method CompleteWith(o: Outcome, ghost t: int) returns (won: bool)
      modifies this
      ensures (View(None), Completer(CDone(won), o)) == Alone(old(View(None)), t, Completer(CStart, o))
    {
      hide Alone;
      ghost var all := Alone(View(None), t, Completer(CStart, o));
      AloneStep(View(None), t, Completer(CStart, o));
      AloneStep(View(Some(t)), t, Completer(CLocked, o));
      if status != Pending {
        AloneStep(View(Some(t)), t, Completer(CLost, o));
        AloneDone(View(None), t, Completer(CDone(false), o));
        return false;
      }
      status := StatusOf(o);
      winner := Some(Win(t, o, CWon));
      StoreOutcome(o, t);
      HandOver(o, t);
      return true;
    }

    method StoreOutcome(o: Outcome, ghost t: int)
      modifies this`value, this`exception, this`winner
      ensures Alone(View(Some(t)), t, Completer(CStored, o)) == Alone(old(View(Some(t))), t, Completer(CWon, o))
    {
      hide Alone;
      AloneStep(View(Some(t)), t, Completer(CWon, o));
      match o {
        case Success(v) => {
          if !isVoid {
            value := Some(v);
          }
        }
        case Failure(e) => { exception := Some(e); }
        case Cancellation => {}
      }
      winner := Some(Win(t, o, CStored));
    }

    /** The continuation is swapped out under the lock and run after it. */
    method HandOver(o: Outcome, ghost t: int)
      modifies this`continuation, this`runs, this`winner, this`holder
      ensures (View(None), Completer(CDone(true), o)) == Alone(old(View(Some(t))), t, Completer(CStored, o))
    {
      hide Alone;
      AloneStep(View(Some(t)), t, Completer(CStored, o));
      var local := continuation;
      continuation := false;
      holder := if local then Some(t) else holder;
      winner := Some(Win(t, o, CSwapped(local)));
      AloneStep(View(Some(t)), t, Completer(CSwapped(local), o));
      winner := Some(Win(t, o, CUnlocked(local)));
      AloneStep(View(None), t, Completer(CUnlocked(local), o));
      if local {
        runs := runs + 1;
        holder := None;
      }
      winner := Some(Win(t, o, CDone(true)));
      AloneDone(View(None), t, Completer(CDone(true), o));
    }

    method SetContinuation(ghost t: int)
      modifies this
      ensures (View(None), Registrar(RDone)) == Alone(old(View(None)), t, Registrar(RStart))
    {
      ghost var all := Alone(View(None), t, Registrar(RStart));
      assert Alone(View(Some(t)), t, Registrar(RLocked)) == all;
      var keep := true;
      if status == Pending {
        assert Alone(View(Some(t)), t, Registrar(RSaw(true))) == all;
        continuation := true;
        holder := None;
        keep := false;
      } else {
        assert Alone(View(Some(t)), t, Registrar(RSaw(false))) == all;
      }
      assert Alone(View(Some(t)), t, Registrar(RHandled(keep))) == all;
      assert Alone(View(None), t, Registrar(RUnlocked(keep))) == all;
      if keep {
        runs := runs + 1;
        holder := None;
      }
    }

    /** Get of a context that is no longer pending. */
    method Get(ghost t: int) returns (res: Result)
      requires status != Pending
      modifies this
      ensures (View(None), Getter(GDone(res))) == Alone(old(View(None)), t, Getter(GStart))
    {
      ghost var all := Alone(View(None), t, Getter(GStart));
      if status == Canceled {
        return Aborted;
      }
      assert Alone(View(None), t, Getter(GSaw)) == all;
      assert Alone(View(Some(t)), t, Getter(GLocked)) == all;
      if exception.Some? {
        res := Rethrown(exception.value);
        exception := None;
        taker := Some(t);
      } else if isVoid {
        res := Returned;
      } else if value.Some? {
        res := Value(value.value);
        value := None;
        taker := Some(t);
      } else {
        res := AlreadyUsed;
      }
      assert Alone(View(Some(t)), t, Getter(GRead(res))) == all;
    }
  }
}
