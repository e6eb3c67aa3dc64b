/** The class BehaviorTree: its traversal, suspended and resumed, against the recursive evaluation. */
module BehaviorTreeRun {
  import opened Wrappers
  import opened BehaviorTrees

  class BehaviorTree {
    const root: Node
    var currentState: State
    var stack: seq<Node>
    var visited: set<NodeId>
    var index: map<NodeId, nat>           // every Branch::_index
    var coroutines: set<NodeId>           // leaves holding a coroutine
    var running: Option<NodeId>           // _runningNodeCoroutine
    var promised: State                   // the state of that coroutine's promise
    var log: seq<Event>                   // node events since the last LogBehaviorTreeStart
    var suspended: seq<NodeId>            // LogNodeSuspend calls
    var ended: seq<bool>                  // LogBehaviorTreeEnd calls
    var finalized: bool                   // Finalize has been called

    /** Ready for RunOnce: every node is as it was built. */
    ghost predicate Fresh()
      reads this
    {
      && stack == [] && visited == {} && coroutines == {} && running == None && currentState == Success
      && forall id :: IndexOf(index, id) == 0
    }

    function Top(): Node
      requires stack != []
      reads this
    {
      stack[|stack| - 1]
    }

    ghost function Left(answers: Answers): nat
      reads this
    {
      Distance(stack, visited, index, currentState == Success, answers)
    }

    /** Waiting at a visited leaf for an event. */
    ghost predicate AtLeaf()
      reads this
    {
      && stack != [] && Top().Leaf? && Top().id in visited
      && currentState == Running && running == Some(Top().id) && Top().id in coroutines
    }

    /** Between two turns of the traversal loop. The log so far and what is left make up the evaluation. */
    ghost predicate Underway(answers: Answers)
      reads this
    {
      && OnCourse(root, stack, visited, index, log, currentState == Success, answers)
      && coroutines <= visited
      && (AtLeaf() || (running == None && ((stack != [] && Top().id !in visited) || currentState != Running)))
      && (stack != [] && Top().id in visited && Top().Leaf? ==> AtLeaf())
    }

    ghost predicate Awaiting(answers: Answers)
      reads this
    {
      Underway(answers) && AtLeaf()
    }

    constructor (root: Node)
      requires WellFormed(root)
      ensures Fresh() && this.root == root && ended == [] && suspended == [] && !finalized
    {
      this.root := root;
      finalized := false;
      currentState, stack, visited, index, coroutines := Success, [], {}, map[], {};
      running, promised, log, suspended, ended := None, Success, [], [], [];
    }

    method FinalizeTraverse()
      modifies this`visited, this`index, this`coroutines, this`currentState
      ensures visited == {} && currentState == Success
      ensures coroutines == old(coroutines) - old(visited)
      ensures forall id :: IndexOf(index, id) == if id in old(visited) then 0 else IndexOf(old(index), id)
    {
      var todo := visited;
      while todo != {}
        invariant todo <= old(visited)
        invariant coroutines == old(coroutines) - (old(visited) - todo)
        invariant forall id :: IndexOf(index, id) == if id in old(visited) - todo then 0 else IndexOf(old(index), id)
        decreases todo
      {
        var id :| id in todo;
        index := index[id := 0];
        coroutines := coroutines - {id};
        todo := todo - {id};
      }
      visited := {};
      currentState := Success;
    }

    /** First visit of a branch or decorator: mark it, hand out its first child. */
    method Enter(child: Node, ghost answers: Answers)
      requires Underway(answers) && stack != [] && !Top().Leaf? && Top().id !in visited
      requires IndexOf(index, Top().id) == 0
      requires Top().Branch? ==> Top().children != [] && child == Top().children[0]
      requires Top().Decorator? ==> child == Top().child
      modifies this`visited, this`log, this`index, this`stack
      ensures Underway(answers) && Left(answers) < old(Left(answers)) && stack == old(stack) + [child]
      ensures log == old(log) + [Start(old(Top()).id, false)]
    {
      hide OnCourse;
      var n := Top();
      var index' := if n.Branch? then index[n.id := IndexOf(index, n.id) + 1] else index;
      StartKeeps(root, stack, visited, index, index', log, child, currentState == Success, answers);
      visited, log, index, stack := visited + {n.id}, log + [Start(n.id, false)], index', stack + [child];
      assert OnCourse(root, stack, visited, index, log, currentState == Success, answers);
    }

    /** A visited branch hands out its next child. */
    method Continue(ghost answers: Answers)
      requires Underway(answers) && stack != [] && Top().Branch? && Top().id in visited
      requires ShouldContinue(Top().branchKind, currentState) && IndexOf(index, Top().id) < |Top().children|
      modifies this`index, this`stack
      ensures Underway(answers) && Left(answers) < old(Left(answers))
      ensures stack == old(stack) + [old(Top().children[IndexOf(index, Top().id)])]
    {
      hide OnCourse;
      var n := Top();
      var k := IndexOf(index, n.id);
      ContinueKeeps(root, stack, visited, index, index[n.id := k + 1], log, currentState == Success, answers);
      index := index[n.id := k + 1];
      stack := stack + [n.children[k]];
    }

    lemma TopFacts(answers: Answers)
      requires Underway(answers) && stack != []
      ensures WellFormed(Top()) && (Top().id !in visited ==> IndexOf(index, Top().id) == 0)
    {
      PathTop(root, stack, visited, index);
    }

    /** A leaf on top: run it, or take the resumed coroutine's answer; true when it has answered.
        `exec` is what Leaf::Execute returns. */
    method VisitLeaf(exec: NodeId -> State, ghost answers: Answers) returns (over: bool)
      requires Underway(answers) && stack != [] && Top().Leaf?
      requires exec(Top().id) != Running ==> exec(Top().id) == ToState(answers(Top().id))
      requires AtLeaf() && promised != Running ==> promised == ToState(answers(Top().id))
      modifies this`visited, this`log, this`currentState, this`coroutines, this`running, this`suspended
      ensures log == if old(AtLeaf()) then old(log) else old(log) + [Start(Top().id, true)]
      ensures over <==> (if old(AtLeaf()) then promised else exec(Top().id)) != Running
      ensures over ==> && currentState == ToState(answers(Top().id)) && running == None && suspended == old(suspended)
                       && visited == old(visited) + {Top().id} && coroutines == old(coroutines)
      ensures !over ==>
              Awaiting(answers) && suspended == if old(AtLeaf()) then old(suspended) else old(suspended) + [Top().id]
    {
      hide OnCourse;
      var id := Top().id;
      if id in visited {
        assert currentState == Running && running == Some(id) && id in coroutines;
        currentState := promised;
        if currentState == Running {
          return false;
        }
        running := None;
        assert visited == visited + {id};
      } else {
        SuspendKeeps(root, stack, visited, index, log, currentState == Success, exec(id) == Success, answers);
        visited := visited + {id};
        log := log + [Start(id, true)];
        currentState := exec(id);
        if currentState == Running {
          coroutines := coroutines + {id};
          running := Some(id);
          suspended := suspended + [id];
          return false;
        }
      }
      return true;
    }

    /** The top node is over and has answered: report it and go back to its parent. */
    method Leave(ghost v: set<NodeId>, ghost l: seq<Event>, ghost r: bool, ghost answers: Answers)
      requires stack != [] && currentState != Running && running == None && coroutines <= visited
      requires OnCourse(root, stack, v, index, l, r, answers)
      requires Answered(Top(), v, index, r, currentState == Success, answers)
      requires visited == v + {Top().id} && log == if Top().id in v then l else l + [Start(Top().id, true)]
      modifies this`log, this`stack
      ensures Underway(answers) && Left(answers) < Distance(old(stack), v, index, r, answers)
      ensures stack == old(stack)[..|old(stack)| - 1] && log == old(log) + [End(old(Top()).id, currentState == Success)]
    {
      hide OnCourse;
      EndKeeps(root, stack, v, index, l, r, currentState == Success, answers);
      log := log + [End(Top().id, currentState == Success)];
      stack := stack[..|stack| - 1];
    }

    /** A turn of the traversal loop on a branch or a decorator. */
    method TurnInner(ghost exec: NodeId -> State, ghost answers: Answers)
      requires Underway(answers) && stack != [] && !Top().Leaf?
      modifies this`visited, this`log, this`index, this`stack, this`currentState
      ensures Underway(answers) && Left(answers) < old(Left(answers)) && running == None && running == old(running)
      ensures AllAnswered(old(log), log, exec)
      ensures stack == [] ==> log != [] && log[|log| - 1].End?
    {
      hide OnCourse;
      TopFacts(answers);
      ghost var r, left := currentState == Success, Left(answers);
      assert Top().id in visited ==> currentState != Running;
      match Top() {
        case Branch(id, kind, children) =>
          if id !in visited {
            Enter(children[0], answers);
            return;
          }
          if ShouldContinue(kind, currentState) && IndexOf(index, id) < |children| {
            Continue(answers);
            return;
          }
        case Decorator(id, kind, child) =>
          if id !in visited {
            Enter(child, answers);
            return;
          }
          currentState := Decorate(kind, currentState);
      }
      assert visited == visited + {Top().id} && left == Distance(stack, visited, index, r, answers);
      Leave(visited, log, r, answers);
      assert Left(answers) < left;
    }

    /** A turn on a leaf; false when it suspends, or stays suspended. */
    method TurnLeaf(exec: NodeId -> State, ghost answers: Answers) returns (over: bool)
      requires Underway(answers) && stack != [] && Top().Leaf?
      requires exec(Top().id) != Running ==> exec(Top().id) == ToState(answers(Top().id))
      requires AtLeaf() && promised != Running ==> promised == ToState(answers(Top().id))
      modifies this`visited, this`log, this`currentState, this`coroutines, this`running, this`suspended, this`stack
      ensures over <==> (if old(AtLeaf()) then promised else exec(old(Top()).id)) != Running
      ensures over ==>
              Underway(answers) && Left(answers) < old(Left(answers)) && running == None && suspended == old(suspended)
      ensures over ==> log == (if old(AtLeaf()) then old(log) else old(log) + [Start(old(Top()).id, true)])
                              + [End(old(Top()).id, answers(old(Top()).id))]
      ensures Advanced(old(log), log, exec) && (over && !old(AtLeaf()) ==> AllAnswered(old(log), log, exec))
      ensures !over ==> Awaiting(answers) && stack == old(stack)
      ensures !over ==> if old(AtLeaf()) then log == old(log) && suspended == old(suspended)
                        else log == old(log) + [Start(Top().id, true)] && suspended == old(suspended) + [Top().id]
    {
      hide OnCourse;
      ghost var v, l, r := visited, log, currentState == Success;
      over := VisitLeaf(exec, answers);
      if over {
        Leave(v, l, r, answers);
      }
    }

    /** The stack has run empty: the tree's end is reported and every visited node reset. */
    method Complete(ghost answers: Answers)
      requires Underway(answers) && stack == []
      modifies this`visited, this`index, this`coroutines, this`currentState, this`ended
      ensures Fresh() && log == Eval(root, answers).log && ended == old(ended) + [Eval(root, answers).result]
    {
      ended := ended + [currentState == Success];
      FinalizeTraverse();
    }

    /** The turns of the traversal loop after a suspended leaf, if any, has answered. */
    method Roam(exec: NodeId -> State, ghost answers: Answers)
      requires Underway(answers) && running == None
      requires forall id :: exec(id) != Running ==> exec(id) == ToState(answers(id))
      modifies this`visited, this`log, this`currentState, this`coroutines, this`running, this`suspended, this`stack,
        this`index
      ensures Underway(answers) && Advanced(old(log), log, exec)
      ensures stack == [] ==> suspended == old(suspended) && (old(stack) != [] ==> log != [] && log[|log| - 1].End?)
      ensures stack == [] && old(stack) == [] ==> log == old(log)
      ensures stack != [] ==> && AtLeaf() && |log| > |old(log)| && log[|log| - 1] == Start(Top().id, true)
                              && exec(Top().id) == Running && suspended == old(suspended) + [Top().id]
    {
      hide OnCourse;
      hide WellFormed;
      hide Advanced;
      hide AllAnswered;
      NothingStarted(log, exec);
      var going := true;
      while going && stack != []
        invariant Underway(answers)
        invariant going ==> running == None && suspended == old(suspended) && AllAnswered(old(log), log, exec)
        invariant stack == [] ==> going && (old(stack) != [] ==> log != [] && log[|log| - 1].End?)
        invariant old(stack) == [] ==> stack == [] && log == old(log)
        invariant !going ==> && AtLeaf() && |log| > |old(log)| && log[|log| - 1] == Start(Top().id, true)
                             && exec(Top().id) == Running && suspended == old(suspended) + [Top().id]
                             && Advanced(old(log), log, exec)
        decreases Left(answers), going
      {
        ghost var before := log;
        if Top().Leaf? {
          going := TurnLeaf(exec, answers);
        } else {
          TurnInner(exec, answers);
        }
        AnsweredThen(old(log), before, log, exec);
      }
      AnsweredThen(old(log), log, log, exec);
    }

    /** Traverse. `exec` is what Leaf::Execute returns at a leaf started during this call. */
    method Traverse(exec: NodeId -> State, ghost answers: Answers)
      requires Underway(answers) && stack != []
      requires forall id :: exec(id) != Running ==> exec(id) == ToState(answers(id))
      requires AtLeaf() && promised != Running ==> promised == ToState(answers(Top().id))
      modifies this
      ensures finalized == old(finalized)
      ensures if stack == []
              then Fresh() && log == Eval(root, answers).log && ended == old(ended) + [Eval(root, answers).result]
              else Awaiting(answers) && ended == old(ended)
      ensures Advanced(old(log), log, exec)
      ensures old(AtLeaf()) && old(promised) == Running ==>
              log == old(log) && stack == old(stack) && suspended == old(suspended)
      ensures !(old(AtLeaf()) && old(promised) == Running) && stack != [] ==>
                && |log| > |old(log)| && log[|log| - 1] == Start(Top().id, true)
                && exec(Top().id) == Running && suspended == old(suspended) + [Top().id]
      ensures stack == [] ==> suspended == old(suspended) && log != [] && log[|log| - 1].End?
    {
      hide OnCourse;
      if running != None {
        var over := TurnLeaf(exec, answers);
        if !over {
          return;
        }
      }
      Roam(exec, answers);
      if stack == [] {
        Complete(answers);
      }
    }

    method RunOnce(exec: NodeId -> State, ghost answers: Answers)
      requires WellFormed(root) && Fresh()
      requires forall id :: exec(id) != Running ==> exec(id) == ToState(answers(id))
      modifies this
      ensures finalized == old(finalized)
      ensures if stack == []
              then Fresh() && log == Eval(root, answers).log && ended == old(ended) + [Eval(root, answers).result]
              else Awaiting(answers) && ended == old(ended)
      ensures Advanced([], log, exec)
      ensures stack == [] ==> suspended == old(suspended) && log != [] && log[|log| - 1].End?
      ensures stack != [] ==> && log != [] && log[|log| - 1] == Start(Top().id, true) && exec(Top().id) == Running
                              && suspended == old(suspended) + [Top().id]
    {
      hide Eval;
      hide Advanced;
      StartsOnCourse(root, index, answers);
      hide OnCourse;
      log := [];
      stack := stack + [root];
      assert stack == [root];
      Traverse(exec, answers);
    }

    /** `answer` is the state the coroutine reaches when it is resumed. */
    method Resume(answer: State, exec: NodeId -> State, ghost answers: Answers)
      requires Awaiting(answers)
      requires answer != Running ==> answer == ToState(answers(Top().id))
      requires forall id :: exec(id) != Running ==> exec(id) == ToState(answers(id))
      modifies this
      ensures finalized == old(finalized)
      ensures if stack == []
              then Fresh() && log == Eval(root, answers).log && ended == old(ended) + [Eval(root, answers).result]
              else Awaiting(answers) && ended == old(ended)
      ensures Advanced(old(log), log, exec)
      ensures answer == Running ==> log == old(log) && stack == old(stack) && suspended == old(suspended)
      ensures answer != Running && stack != [] ==>
                && |log| > |old(log)| && log[|log| - 1] == Start(Top().id, true)
                && exec(Top().id) == Running && suspended == old(suspended) + [Top().id]
      ensures stack == [] ==> suspended == old(suspended) && log != [] && log[|log| - 1].End?
    {
      hide OnCourse;
      promised := answer;
      Traverse(exec, answers);
    }

    /** An event reaches the tree: it is lost unless a suspended leaf waits for it. */
    method NotifyAndResume(waitingForIt: bool, answer: State, exec: NodeId -> State, ghost answers: Answers)
      requires Fresh() || Awaiting(answers)
      requires Awaiting(answers) && answer != Running ==> answer == ToState(answers(Top().id))
      requires forall id :: exec(id) != Running ==> exec(id) == ToState(answers(id))
      modifies this
      ensures finalized == old(finalized)
      ensures !(old(currentState) == Running && waitingForIt) ==> unchanged(this)
      ensures old(currentState) == Running && waitingForIt ==>
                if stack == []
                  then Fresh() && log == Eval(root, answers).log && ended == old(ended) + [Eval(root, answers).result]
                else Awaiting(answers) && ended == old(ended)
    {
      hide OnCourse;
      if currentState != Running {
        return;
      }
      if waitingForIt {
        Resume(answer, exec, answers);
      }
    }

    /** The first Finalize makes the tree as good as new, at rest and at any suspension. Any other does nothing, also
        when the tree has been run again in between. */
    method Finalize(ghost answers: Answers)
      requires Fresh() || Awaiting(answers)
      modifies this
      ensures finalized && ended == old(ended)
      ensures if old(finalized) then unchanged(this) else Fresh()
    {
      if finalized {
        return;
      }
      finalized := true;
      FinalizeTraverse();
      stack := [];
      running := None;
    }

    /** While a leaf is suspended, the evaluation's next event is that leaf's end. */
    lemma AwaitedEvent(answers: Answers)
      requires Awaiting(answers)
      ensures log < Eval(root, answers).log
      ensures Eval(root, answers).log[|log|] == End(Top().id, answers(Top().id))
    {}

    /** One resume of a leaf that still owes `pending` answers, the last of them final. */
    method AnswerOnce(exec: NodeId -> State, delay: NodeId -> nat, pending: nat, answers: Answers) returns (next: nat)
      requires Awaiting(answers) && pending > 0
      requires forall id :: exec(id) == if delay(id) == 0 then ToState(answers(id)) else Running
      modifies this
      ensures finalized == old(finalized)
      ensures if stack == []
              then Fresh() && log == Eval(root, answers).log && ended == old(ended) + [Eval(root, answers).result]
              else Awaiting(answers) && ended == old(ended) && next > 0
      ensures stack == [] ==> next == 0
      ensures Delays(log, delay) == Delays(old(log), delay) + next + 1 - pending
      ensures stack != [] ==>
              |log| <= |Eval(root, answers).log| && (|old(log)| < |log| || (log == old(log) && next < pending))
    {
      hide OnCourse;
      hide Advanced;
      hide Eval;
      AwaitedEvent(answers);
      if pending > 1 {
        Resume(Running, exec, answers);
        return pending - 1;
      }
      Resume(ToState(answers(Top().id)), exec, answers);
      assert |log| > |old(log)|;
      DelaysGrow(old(log), log, exec, delay);
      if stack == [] {
        next := 0;
      } else {
        AwaitedEvent(answers);
        next := delay(Top().id);
      }
    }

    /** A whole run in which leaf `id` stays Running through `delay(id)` answers: RunOnce, then a resume for each of
        them. It takes exactly as many resumes as the evaluated leaves are delayed, logs exactly the recursive
        evaluation, and ends ready for the next run. */
    method RunToEnd(delay: NodeId -> nat, answers: Answers) returns (resumes: nat)
      requires WellFormed(root) && Fresh()
      modifies this
      ensures finalized == old(finalized)
      ensures Fresh() && log == Eval(root, answers).log && ended == old(ended) + [Eval(root, answers).result]
      ensures resumes == Delays(Eval(root, answers).log, delay)
    {
      hide OnCourse;
      hide Eval;
      var exec: NodeId -> State := (id: NodeId) => if delay(id) == 0 then ToState(answers(id)) else Running;
      RunOnce(exec, answers);
      DelaysGrow([], log, exec, delay);
      resumes := 0;
      var pending := if stack == [] then 0 else delay(Top().id);
      if stack != [] {
        AwaitedEvent(answers);
      }
      while stack != []
        invariant finalized == old(finalized)
        invariant if stack == []
                  then Fresh() && log == Eval(root, answers).log && ended == old(ended) + [Eval(root, answers).result]
                  else Awaiting(answers) && ended == old(ended) && pending > 0 && |log| <= |Eval(root, answers).log|
        invariant Delays(log, delay) == resumes + pending && (stack == [] ==> pending == 0)
        decreases if stack == [] then 0 else 1, |Eval(root, answers).log| - |log|, pending
      {
        pending := AnswerOnce(exec, delay, pending, answers);
        resumes := resumes + 1;
      }
    }
  }

  /** Running answers the leaves started in `log` give before their final ones. */
  function Delays(log: seq<Event>, delay: NodeId -> nat): nat {
    if log == [] then 0
    else Delays(log[..|log| - 1], delay)
         + (if log[|log| - 1].Start? && log[|log| - 1].leaf then delay(log[|log| - 1].id) else 0)
  }

  lemma {:induction false} DelaysGrow(before: seq<Event>, after: seq<Event>, exec: NodeId -> State,
                                      delay: NodeId -> nat)
    requires Advanced(before, after, exec) && forall id :: exec(id) == Running <==> delay(id) > 0
    ensures |after| > |before| ==>
              Delays(after, delay) == Delays(before, delay)
                + (if after[|after| - 1].Start? && after[|after| - 1].leaf then delay(after[|after| - 1].id) else 0)
    decreases |after|
  {
    if |after| == |before| + 1 {
      assert after[..|after| - 1] == before;
    } else if |after| > |before| {
      var shorter := after[..|after| - 1];
      assert Advanced(before, shorter, exec);
      DelaysGrow(before, shorter, exec, delay);
    }
  }

  /** Only the last leaf started since `before` may have suspended. */
  ghost predicate Advanced(before: seq<Event>, after: seq<Event>, exec: NodeId -> State) {
    before <= after
    && forall k :: |before| <= k < |after| - 1 && after[k].Start? && after[k].leaf ==> exec(after[k].id) != Running
  }

  lemma NothingStarted(log: seq<Event>, exec: NodeId -> State)
    ensures AllAnswered(log, log, exec)
  {}

  lemma AnsweredThen(a: seq<Event>, b: seq<Event>, c: seq<Event>, exec: NodeId -> State)
    ensures AllAnswered(a, b, exec) && Advanced(b, c, exec) ==> Advanced(a, c, exec) && |a| <= |b| <= |c|
    ensures AllAnswered(a, b, exec) && AllAnswered(b, c, exec) ==> AllAnswered(a, c, exec)
    ensures AllAnswered(a, b, exec) ==> Advanced(a, b, exec)
  {}

  ghost predicate AllAnswered(before: seq<Event>, after: seq<Event>, exec: NodeId -> State) {
    before <= after
    && forall k :: |before| <= k < |after| && after[k].Start? && after[k].leaf ==> exec(after[k].id) != Running
  }
}
