/** The behaviour tree of shared/ai/behavior_tree. `Eval` is the plain recursive evaluation; the class runs the
    tree with an explicit stack and a visited set, and may suspend at any leaf and be resumed later. */
module BehaviorTrees {
  type NodeId = nat

  datatype State = Success | Failure | Running

  /** An overridden ShouldContinue: after which answers of a child the branch goes on. */
  datatype BranchKind = BranchKind(onSuccess: bool, onFailure: bool)

  /** An overridden Decorate: whether it answers with success to the child's success, and to its failure. */
  datatype DecoratorKind = DecoratorKind(ofSuccess: bool, ofFailure: bool)

  const SEQUENCE := BranchKind(true, false)
  const SELECTOR := BranchKind(false, true)

  const INVERTER := DecoratorKind(false, true)
  const FORCE_SUCCESS := DecoratorKind(true, true)
  const FORCE_FAILURE := DecoratorKind(false, false)

  /** `id` stands for the node's address. */
  datatype Node =
    | Branch(id: NodeId, branchKind: BranchKind, children: seq<Node>)
    | Decorator(id: NodeId, decoratorKind: DecoratorKind, child: Node)
    | Leaf(id: NodeId)

  /** What the tree tells its logger about nodes. */
  datatype Event = Start(id: NodeId, leaf: bool) | End(id: NodeId, success: bool)

  datatype Trace = Trace(log: seq<Event>, result: bool)

  /** The answer each leaf eventually gives in one run of the tree. */
  type Answers = NodeId -> bool

  predicate ShouldContinue(kind: BranchKind, childState: State) {
    match childState
    case Success => kind.onSuccess
    case Failure => kind.onFailure
    case Running => false
  }

  function ToState(success: bool): State { if success then Success else Failure }

  function Decorate(kind: DecoratorKind, state: State): State {
    ToState(if state == Success then kind.ofSuccess else kind.ofFailure)
  }

  // ---------------------------------------------------------------- recursive evaluation

  function Eval(n: Node, answers: Answers): Trace
    decreases n, if n.Branch? then |n.children| + 1 else 0
  {
    match n
    case Leaf(id) => Trace([Start(id, true), End(id, answers(id))], answers(id))
    case Decorator(id, kind, child) =>
      var t := Eval(child, answers);
      var r := Decorate(kind, ToState(t.result)) == Success;
      Trace([Start(id, false)] + t.log + [End(id, r)], r)
    case Branch(id, kind, children) =>
      if children == [] then Trace([Start(id, false)], false) else
      var t := Eval(children[0], answers);
      var rest := EvalFrom(n, 1, t.result, answers);
      Trace([Start(id, false)] + t.log + rest.log, rest.result)
  }

  /** Branch `b` from its child number `c` on, the child before having answered `last`. */
  function EvalFrom(b: Node, c: nat, last: bool, answers: Answers): Trace
    requires b.Branch?
    decreases b, if c < |b.children| then |b.children| - c else 0
  {
    if ShouldContinue(b.branchKind, ToState(last)) && c < |b.children| then
      var t := Eval(b.children[c], answers);
      var rest := EvalFrom(b, c + 1, t.result, answers);
      Trace(t.log + rest.log, rest.result)
    else
      Trace([End(b.id, last)], last)
  }

  /** From any child on, a sequence succeeds when all do that are left, a selector when one does. */
  lemma {:induction false} AllOrAny(b: Node, c: nat, last: bool, answers: Answers)
    requires b.Branch? && c <= |b.children|
    ensures b.branchKind == SEQUENCE ==>
              (EvalFrom(b, c, last, answers).result <==>
               last && forall i :: c <= i < |b.children| ==> Eval(b.children[i], answers).result)
    ensures b.branchKind == SELECTOR ==>
              (EvalFrom(b, c, last, answers).result <==>
               last || exists i :: c <= i < |b.children| && Eval(b.children[i], answers).result)
    decreases |b.children| - c
  {
    if c < |b.children| {
      AllOrAny(b, c + 1, Eval(b.children[c], answers).result, answers);
    }
  }

  /** What the five nodes make of their children's answers. */
  lemma Meaning(n: Node, answers: Answers)
    ensures n.Branch? && n.children != [] && n.branchKind == SEQUENCE ==>
              (Eval(n, answers).result <==> forall i :: 0 <= i < |n.children| ==> Eval(n.children[i], answers).result)
    ensures n.Branch? && n.children != [] && n.branchKind == SELECTOR ==>
              (Eval(n, answers).result <==> exists i :: 0 <= i < |n.children| && Eval(n.children[i], answers).result)
    ensures n.Decorator? && n.decoratorKind == INVERTER ==>
            (Eval(n, answers).result <==> !Eval(n.child, answers).result)
    ensures n.Decorator? && n.decoratorKind == FORCE_SUCCESS ==> Eval(n, answers).result
    ensures n.Decorator? && n.decoratorKind == FORCE_FAILURE ==> !Eval(n, answers).result
  {
    if n.Branch? && n.children != [] {
      AllOrAny(n, 1, Eval(n.children[0], answers).result, answers);
    }
  }

  // ---------------------------------------------------------------- what is logged

  /** The logs of some nodes evaluated one after the other. */
  function Logs(nodes: seq<Node>, answers: Answers): seq<Event> {
    if nodes == [] then [] else Eval(nodes[0], answers).log + Logs(nodes[1..], answers)
  }

  lemma NoLogs(nodes: seq<Node>, answers: Answers)
    requires nodes == []
    ensures Logs(nodes, answers) == []
  {}

  lemma LogsFirst(nodes: seq<Node>, c: nat, k: nat, answers: Answers)
    requires c < k <= |nodes|
    ensures Logs(nodes[c..k], answers) == Eval(nodes[c], answers).log + Logs(nodes[c + 1..k], answers)
  {
    hide Eval;
    assert nodes[c..k][1..] == nodes[c + 1..k];
  }

  /** Whether an answer lets the branch go on with its next child. */
  predicate GoesOn(kind: BranchKind, result: bool) { if result then kind.onSuccess else kind.onFailure }

  /** From child number `c` on, the children up to some `k` run in order: the first whose answer ends the branch, or
      the last there is. Its answer is the branch's. */
  lemma {:induction false} RunsUpTo(b: Node, c: nat, last: bool, answers: Answers) returns (k: nat)
    requires b.Branch? && c <= |b.children|
    ensures c <= k <= |b.children|
    ensures k > c ==> GoesOn(b.branchKind, last)
    ensures forall i :: c <= i < k - 1 ==> GoesOn(b.branchKind, Eval(b.children[i], answers).result)
    ensures var result := if k == c then last else Eval(b.children[k - 1], answers).result;
            && EvalFrom(b, c, last, answers) == Trace(Logs(b.children[c..k], answers) + [End(b.id, result)], result)
            && (k < |b.children| ==> !GoesOn(b.branchKind, result))
    decreases |b.children| - c
  {
    hide Eval;
    hide EvalFrom;
    hide Logs;
    FromStep(b, c, last, answers);
    k := c;
    if c < |b.children| && GoesOn(b.branchKind, last) {
      k := RunsUpTo(b, c + 1, Eval(b.children[c], answers).result, answers);
      LogsFirst(b.children, c, k, answers);
    } else {
      NoLogs(b.children[c..c], answers);
    }
  }

  lemma FromStep(b: Node, c: nat, last: bool, answers: Answers)
    requires b.Branch? && c <= |b.children|
    ensures !(c < |b.children| && GoesOn(b.branchKind, last)) ==>
              EvalFrom(b, c, last, answers) == Trace([End(b.id, last)], last)
    ensures c < |b.children| && GoesOn(b.branchKind, last) ==>
              var t := Eval(b.children[c], answers);
              var rest := EvalFrom(b, c + 1, t.result, answers);
              EvalFrom(b, c, last, answers) == Trace(t.log + rest.log, rest.result)
  {
    hide Eval;
  }

  lemma BranchEval(n: Node, answers: Answers)
    requires n.Branch? && n.children != []
    ensures var t := Eval(n.children[0], answers);
            var rest := EvalFrom(n, 1, t.result, answers);
            Eval(n, answers) == Trace([Start(n.id, false)] + t.log + rest.log, rest.result)
  {
    hide EvalFrom;
  }

  /** A branch runs its children in order up to the first that ends it, or to the last, and logs them between its own
      two events; no child after that one is started. */
  lemma Decided(n: Node, answers: Answers) returns (k: nat)
    requires n.Branch? && n.children != []
    ensures 1 <= k <= |n.children|
    ensures forall i :: 0 <= i < k - 1 ==> GoesOn(n.branchKind, Eval(n.children[i], answers).result)
    ensures k < |n.children| ==> !GoesOn(n.branchKind, Eval(n.children[k - 1], answers).result)
    ensures Eval(n, answers).result == Eval(n.children[k - 1], answers).result
    ensures Eval(n, answers).log ==
            [Start(n.id, false)] + Logs(n.children[..k], answers) + [End(n.id, Eval(n, answers).result)]
  {
    hide Eval;
    hide EvalFrom;
    hide Logs;
    BranchEval(n, answers);
    k := RunsUpTo(n, 1, Eval(n.children[0], answers).result, answers);
    LogsFirst(n.children, 0, k, answers);
    assert n.children[..k] == n.children[0..k];
  }

  /** What a node logs begins with its start and ends with its answer. */
  lemma Bracketed(n: Node, answers: Answers)
    requires WellFormed(n)
    ensures var t := Eval(n, answers);
            |t.log| >= 2 && t.log[0] == Start(n.id, n.Leaf?) && t.log[|t.log| - 1] == End(n.id, t.result)
  {
    if n.Branch? {
      var k := Decided(n, answers);
    }
  }

  // ---------------------------------------------------------------- distinct nodes

  function Ids(n: Node): set<NodeId> {
    match n
    case Leaf(id) => {id}
    case Decorator(id, _, child) => {id} + Ids(child)
    case Branch(id, _, children) => {id} + set c, x | c in children && x in Ids(c) :: x
  }

  /** All nodes are distinct; branches and decorators have a child, as the code asserts. */
  ghost predicate WellFormed(n: Node) {
    match n
    case Leaf(_) => true
    case Decorator(id, _, child) => id !in Ids(child) && WellFormed(child)
    case Branch(id, _, children) =>
      && children != []
      && (forall i :: 0 <= i < |children| ==> id !in Ids(children[i]) && WellFormed(children[i]))
      && (forall i, j :: 0 <= i < j < |children| ==> Ids(children[i]) !! Ids(children[j]))
  }

  function IndexOf(index: map<NodeId, nat>, id: NodeId): nat {
    if id in index then index[id] else 0
  }

  // ---------------------------------------------------------------- what a suspended run still has to do

  /** Completes visited branches and decorators, innermost last, after a child answered `r`. */
  ghost function Unwind(stack: seq<Node>, index: map<NodeId, nat>, r: bool, answers: Answers): Trace {
    if stack == [] then Trace([], r) else
    var n := stack[|stack| - 1];
    var t := match n
             case Leaf(_) => Trace([], r)
             case Decorator(id, kind, _) =>
               var r' := Decorate(kind, ToState(r)) == Success; Trace([End(id, r')], r')
             case Branch(id, _, _) => EvalFrom(n, IndexOf(index, id), r, answers);
    var rest := Unwind(stack[..|stack| - 1], index, t.result, answers);
    Trace(t.log + rest.log, rest.result)
  }

  ghost function Remaining(stack: seq<Node>, visited: set<NodeId>, index: map<NodeId, nat>, r: bool,
                           answers: Answers): Trace {
    if stack == [] then Trace([], r) else
    var n, below := stack[|stack| - 1], stack[..|stack| - 1];
    if n.id in visited && !n.Leaf? then Unwind(stack, index, r, answers)
    else
      var t := if n.id in visited then Trace([End(n.id, answers(n.id))], answers(n.id)) else Eval(n, answers);
      var rest := Unwind(below, index, t.result, answers);
      Trace(t.log + rest.log, rest.result)
  }

  lemma {:induction false} UnwindFrame(stack: seq<Node>, index: map<NodeId, nat>, index': map<NodeId, nat>, r: bool,
                                       answers: Answers)
    requires forall n :: n in stack ==> IndexOf(index, n.id) == IndexOf(index', n.id)
    ensures Unwind(stack, index, r, answers) == Unwind(stack, index', r, answers)
  {
    if stack != [] {
      var n := stack[|stack| - 1];
      assert n in stack;
      var t := match n
               case Leaf(_) => Trace([], r)
               case Decorator(id, kind, _) =>
                 var r' := Decorate(kind, ToState(r)) == Success; Trace([End(id, r')], r')
               case Branch(id, _, _) => EvalFrom(n, IndexOf(index, id), r, answers);
      UnwindFrame(stack[..|stack| - 1], index, index', t.result, answers);
    }
  }

  /** `c` is the child that `n` last handed out. */
  ghost predicate CurrentChild(n: Node, c: Node, index: map<NodeId, nat>) {
    match n
    case Leaf(_) => false
    case Decorator(_, _, child) => c == child
    case Branch(id, _, children) => 0 < IndexOf(index, id) <= |children| && c == children[IndexOf(index, id) - 1]
  }

  /** The stack is a path from the root, all of it visited but possibly the top. */
  ghost predicate Path(root: Node, stack: seq<Node>, visited: set<NodeId>, index: map<NodeId, nat>) {
    && (stack != [] ==> stack[0] == root)
    && (forall i :: 0 <= i < |stack| - 1 ==> CurrentChild(stack[i], stack[i + 1], index) && stack[i].id in visited)
    && (forall i :: 0 <= i < |stack| ==> WellFormed(stack[i]))
    && (forall i :: 0 <= i < |stack| && stack[i].id in visited ==> Untouched(stack[i], visited, index))
    && (stack != [] && stack[|stack| - 1].id !in visited ==> Ids(stack[|stack| - 1]) !! visited)
    && (forall id :: IndexOf(index, id) != 0 ==> id in visited)
  }

  /** The children a visited branch has not handed out yet are as good as new. */
  ghost predicate Untouched(n: Node, visited: set<NodeId>, index: map<NodeId, nat>) {
    n.Branch? ==>
      && IndexOf(index, n.id) <= |n.children|
      && forall k :: IndexOf(index, n.id) <= k < |n.children| ==> Ids(n.children[k]) !! visited
  }

  lemma OwnId(n: Node)
    ensures n.id in Ids(n)
  {}

  lemma ChildId(n: Node, c: Node)
    requires WellFormed(n)
    requires n.Branch? ==> c in n.children
    requires n.Decorator? ==> c == n.child
    requires !n.Leaf?
    ensures c.id in Ids(n) && c.id != n.id
  {
    OwnId(c);
  }

  lemma PathTop(root: Node, stack: seq<Node>, visited: set<NodeId>, index: map<NodeId, nat>)
    requires Path(root, stack, visited, index) && stack != []
    ensures var n := stack[|stack| - 1];
            WellFormed(n) && (n.id !in visited ==> Ids(n) !! visited && IndexOf(index, n.id) == 0)
  {}

  lemma {:induction false} PathNested(root: Node, stack: seq<Node>, visited: set<NodeId>, index: map<NodeId, nat>,
                                      i: nat)
    requires Path(root, stack, visited, index) && i < |stack|
    ensures Ids(stack[|stack| - 1]) <= Ids(stack[i])
    ensures i < |stack| - 1 ==> Ids(stack[|stack| - 1]) <= Ids(stack[i + 1]) && stack[i].id !in Ids(stack[|stack| - 1])
    decreases |stack| - i
  {
    if i < |stack| - 1 {
      PathNested(root, stack, visited, index, i + 1);
      assert CurrentChild(stack[i], stack[i + 1], index) && WellFormed(stack[i]);
    }
  }

  /** In a branch `a` whose current child holds `id`, the children still to come are untouched by visiting it. */
  lemma BranchUndisturbed(a: Node, visited: set<NodeId>, index: map<NodeId, nat>, id: NodeId, visited': set<NodeId>,
                          index': map<NodeId, nat>)
    requires a.Branch? && WellFormed(a) && Untouched(a, visited, index) && IndexOf(index, a.id) > 0
    requires id in Ids(a.children[IndexOf(index, a.id) - 1])
    requires visited' == visited + {id} && IndexOf(index', a.id) == IndexOf(index, a.id)
    ensures Untouched(a, visited', index')
  {
    var c := IndexOf(index, a.id);
    forall k | c <= k < |a.children|
      ensures Ids(a.children[k]) !! visited'
    {
      assert Ids(a.children[c - 1]) !! Ids(a.children[k]);
    }
  }

  /** Visiting the top node, and moving its cursor, disturbs no node below it. */
  lemma BelowUndisturbed(root: Node, stack: seq<Node>, visited: set<NodeId>, index: map<NodeId, nat>,
                         visited': set<NodeId>, index': map<NodeId, nat>, i: nat)
    requires Path(root, stack, visited, index) && i < |stack| - 1
    requires var n := stack[|stack| - 1];
             && visited' == visited + {n.id}
             && forall id :: id != n.id ==> IndexOf(index', id) == IndexOf(index, id)
    ensures CurrentChild(stack[i], stack[i + 1], index') && stack[i].id in visited'
    ensures Untouched(stack[i], visited', index')
    ensures IndexOf(index', stack[i].id) == IndexOf(index, stack[i].id)
  {
    var a, n := stack[i], stack[|stack| - 1];
    PathNested(root, stack, visited, index, i);
    OwnId(n);
    assert CurrentChild(a, stack[i + 1], index) && WellFormed(a) && Untouched(a, visited, index);
    hide Path;
    hide Ids;
    hide WellFormed;
    if a.Branch? {
      BranchUndisturbed(a, visited, index, n.id, visited', index');
    }
  }

  /** Pushing child `c` of the top node, after marking that node and moving its cursor. */
  lemma PushKeepsPath(root: Node, stack: seq<Node>, visited: set<NodeId>, index: map<NodeId, nat>,
                      visited': set<NodeId>, index': map<NodeId, nat>, c: Node)
    requires Path(root, stack, visited, index) && stack != []
    requires var n := stack[|stack| - 1];
             && visited' == visited + {n.id}
             && (forall id :: id != n.id ==> IndexOf(index', id) == IndexOf(index, id))
             && CurrentChild(n, c, index')
             && (n.Branch? ==> IndexOf(index', n.id) == IndexOf(index, n.id) + 1)
             && (n.Decorator? ==> n.id !in visited)
    ensures Path(root, stack + [c], visited', index')
  {
    var m := |stack| - 1;
    var n, stack' := stack[m], stack + [c];
    assert WellFormed(n);
    assert WellFormed(c) && n.id !in Ids(c) && Ids(c) !! visited';
    OwnId(c);
    forall i | 0 <= i < |stack'| - 1
      ensures CurrentChild(stack'[i], stack'[i + 1], index') && stack'[i].id in visited'
      ensures Untouched(stack'[i], visited', index')
    {
      if i < m {
        BelowUndisturbed(root, stack, visited, index, visited', index', i);
      } else if n.Branch? {
        forall k | IndexOf(index', n.id) <= k < |n.children|
          ensures Ids(n.children[k]) !! visited'
        {
          assert n.children[k] in n.children;
          if n.id in visited {
            assert Untouched(n, visited, index);
          }
        }
      }
    }
    assert Untouched(c, visited', index');
  }

  /** Popping the top node once it is done. */
  lemma PopKeepsPath(root: Node, stack: seq<Node>, visited: set<NodeId>, index: map<NodeId, nat>)
    requires Path(root, stack, visited, index) && stack != []
    ensures Path(root, stack[..|stack| - 1], visited + {stack[|stack| - 1].id}, index)
  {
    var m := |stack| - 1;
    var visited' := visited + {stack[m].id};
    forall i | 0 <= i < m
      ensures stack[i].id in visited' && Untouched(stack[i], visited', index)
      ensures i < m - 1 ==> CurrentChild(stack[i], stack[i + 1], index)
    {
      BelowUndisturbed(root, stack, visited, index, visited', index, i);
    }
  }

  lemma LowerUnwind(root: Node, stack: seq<Node>, visited: set<NodeId>, index: map<NodeId, nat>,
                    index': map<NodeId, nat>, r: bool, answers: Answers)
    requires Path(root, stack, visited, index) && stack != []
    requires forall id :: id != stack[|stack| - 1].id ==> IndexOf(index', id) == IndexOf(index, id)
    ensures Unwind(stack[..|stack| - 1], index, r, answers) == Unwind(stack[..|stack| - 1], index', r, answers)
  {
    var below := stack[..|stack| - 1];
    forall n | n in below
      ensures IndexOf(index, n.id) == IndexOf(index', n.id)
    {
      var i :| 0 <= i < |below| && below[i] == n;
      BelowUndisturbed(root, stack, visited, index, visited + {stack[|stack| - 1].id}, index', i);
    }
    UnwindFrame(below, index, index', r, answers);
  }

  /** Starting a node: its own events, then what its first child and the rest of it come to. */
  lemma StartLog(n: Node, below: seq<Node>, index: map<NodeId, nat>, c: Node, answers: Answers)
    requires n.Branch? ==> n.children != [] && c == n.children[0] && IndexOf(index, n.id) == 1
    requires n.Decorator? ==> c == n.child
    requires !n.Leaf?
    ensures var t := Eval(c, answers);
            var u := Unwind(below + [n], index, t.result, answers);
            var e := Eval(n, answers);
            var rest := Unwind(below, index, e.result, answers);
            Trace(e.log + rest.log, rest.result) == Trace([Start(n.id, false)] + t.log + u.log, u.result)
  {
    assert (below + [n])[..|below|] == below;
    var t, e := Eval(c, answers), Eval(n, answers);
    var rest := Unwind(below, index, e.result, answers);
    var own := if n.Branch? then EvalFrom(n, 1, t.result, answers).log else [End(n.id, e.result)];
    assert e.log == [Start(n.id, false)] + t.log + own;
    assert [Start(n.id, false)] + t.log + own + rest.log == [Start(n.id, false)] + t.log + (own + rest.log);
  }

  /** Whatever comes back to the lower nodes, they do the same with it. */
  ghost predicate SameUnwind(below: seq<Node>, index: map<NodeId, nat>, index': map<NodeId, nat>, answers: Answers) {
    && Unwind(below, index, true, answers) == Unwind(below, index', true, answers)
    && Unwind(below, index, false, answers) == Unwind(below, index', false, answers)
  }

  lemma ContinueLog(n: Node, below: seq<Node>, index: map<NodeId, nat>, index': map<NodeId, nat>, r: bool,
                    answers: Answers)
    requires n.Branch? && IndexOf(index, n.id) < |n.children| && ShouldContinue(n.branchKind, ToState(r))
    requires IndexOf(index', n.id) == IndexOf(index, n.id) + 1
    requires SameUnwind(below, index, index', answers)
    ensures var t := Eval(n.children[IndexOf(index, n.id)], answers);
            var u := Unwind(below + [n], index', t.result, answers);
            Unwind(below + [n], index, r, answers) == Trace(t.log + u.log, u.result)
  {
    hide Eval;
    hide EvalFrom;
    hide Unwind;
    hide ShouldContinue;
    UnwindTop(n, below, index, r, answers);
    EvalFromNext(n, IndexOf(index, n.id), r, answers);
    var k := IndexOf(index, n.id);
    var t := Eval(n.children[k], answers);
    UnwindTop(n, below, index', t.result, answers);
    var e := EvalFrom(n, k + 1, t.result, answers);
    var rest := Unwind(below, index, e.result, answers);
    assert t.log + e.log + rest.log == t.log + (e.log + rest.log);
  }

  lemma UnwindTop(n: Node, below: seq<Node>, index: map<NodeId, nat>, r: bool, answers: Answers)
    requires n.Branch?
    ensures var e := EvalFrom(n, IndexOf(index, n.id), r, answers);
            var rest := Unwind(below, index, e.result, answers);
            Unwind(below + [n], index, r, answers) == Trace(e.log + rest.log, rest.result)
  {
    hide EvalFrom;
    hide Eval;
    assert (below + [n])[..|below|] == below;
  }

  lemma EvalFromNext(b: Node, c: nat, last: bool, answers: Answers)
    requires b.Branch? && c < |b.children| && ShouldContinue(b.branchKind, ToState(last))
    ensures var t := Eval(b.children[c], answers);
            var rest := EvalFrom(b, c + 1, t.result, answers);
            EvalFrom(b, c, last, answers) == Trace(t.log + rest.log, rest.result)
  {
    hide Eval;
  }

  // ---------------------------------------------------------------- the invariant of a traversal

  ghost predicate OnCourse(root: Node, stack: seq<Node>, visited: set<NodeId>, index: map<NodeId, nat>,
                           log: seq<Event>, r: bool, answers: Answers)
  {
    && Path(root, stack, visited, index)
    && var t := Remaining(stack, visited, index, r, answers);
       Trace(log + t.log, t.result) == Eval(root, answers)
  }

  /** A run begins with the whole evaluation ahead. */
  lemma StartsOnCourse(root: Node, index: map<NodeId, nat>, answers: Answers)
    requires WellFormed(root) && forall id :: IndexOf(index, id) == 0
    ensures OnCourse(root, [root], {}, index, [], true, answers)
  {
    hide Eval;
    StartPath(root, index);
    WholeAhead(root, index, answers);
    hide Path;
    hide Remaining;
    hide WellFormed;
    var t := Eval(root, answers);
    assert [] + t.log == t.log;
  }

  lemma StartPath(root: Node, index: map<NodeId, nat>)
    requires WellFormed(root) && forall id :: IndexOf(index, id) == 0
    ensures Path(root, [root], {}, index)
  {
    hide WellFormed;
    hide Ids;
  }

  lemma WholeAhead(root: Node, index: map<NodeId, nat>, answers: Answers)
    ensures Remaining([root], {}, index, true, answers) == Eval(root, answers)
  {
    hide Eval;
    var t := Eval(root, answers);
    RemainingNew([], root, {}, index, true, answers);
    hide Remaining;
    assert [] + [root] == [root] && t.log + [] == t.log;
  }

  /** How far a traversal is from its end. */
  ghost function Distance(stack: seq<Node>, visited: set<NodeId>, index: map<NodeId, nat>, r: bool,
                          answers: Answers): nat {
    2 * |Remaining(stack, visited, index, r, answers).log|
      + (if stack != [] && stack[|stack| - 1].id in visited then 1 else 0)
  }

  lemma RemainingNew(below: seq<Node>, n: Node, visited: set<NodeId>, index: map<NodeId, nat>, r: bool,
                     answers: Answers)
    requires n.id !in visited
    ensures var t := Eval(n, answers);
            var rest := Unwind(below, index, t.result, answers);
            Remaining(below + [n], visited, index, r, answers) == Trace(t.log + rest.log, rest.result)
  {
    assert (below + [n])[..|below|] == below;
  }

  lemma StartRemaining(below: seq<Node>, n: Node, visited: set<NodeId>, index: map<NodeId, nat>,
                       index': map<NodeId, nat>, c: Node, r: bool, answers: Answers)
    requires n.id !in visited && !n.Leaf? && c.id !in visited + {n.id}
    requires n.Branch? ==> n.children != [] && c == n.children[0] && IndexOf(index', n.id) == 1
    requires n.Decorator? ==> c == n.child
    requires SameUnwind(below, index, index', answers)
    ensures var t := Remaining(below + [n] + [c], visited + {n.id}, index', r, answers);
            Remaining(below + [n], visited, index, r, answers) == Trace([Start(n.id, false)] + t.log, t.result)
  {
    hide Remaining;
    hide Eval;
    hide Unwind;
    RemainingNew(below, n, visited, index, r, answers);
    RemainingNew(below + [n], c, visited + {n.id}, index', r, answers);
    StartLog(n, below, index', c, answers);
    var t := Eval(c, answers);
    var u := Unwind(below + [n], index', t.result, answers);
    assert [Start(n.id, false)] + (t.log + u.log) == [Start(n.id, false)] + t.log + u.log;
  }

  lemma EndRemaining(stack: seq<Node>, visited: set<NodeId>, index: map<NodeId, nat>, r: bool, r': bool,
                     answers: Answers)
    requires stack != [] && Answered(stack[|stack| - 1], visited, index, r, r', answers)
    requires |stack| > 1 ==> stack[|stack| - 2].id in visited && !stack[|stack| - 2].Leaf?
    ensures var n, below := stack[|stack| - 1], stack[..|stack| - 1];
            var t := Remaining(below, visited + {n.id}, index, r', answers);
            var own := if n.id in visited then [] else [Start(n.id, true)];
            Remaining(stack, visited, index, r, answers) == Trace(own + [End(n.id, r')] + t.log, t.result)
  {
    var n, below := stack[|stack| - 1], stack[..|stack| - 1];
    var rest := Unwind(below, index, r', answers);
    assert Remaining(below, visited + {n.id}, index, r', answers) == rest;
    var own := if n.id in visited then [] else [Start(n.id, true)];
    assert own + [End(n.id, r')] == if n.id in visited then [End(n.id, r')] else [Start(n.id, true), End(n.id, r')];
  }

  lemma BelowTop(root: Node, stack: seq<Node>, visited: set<NodeId>, index: map<NodeId, nat>)
    requires Path(root, stack, visited, index) && |stack| > 1
    ensures stack[|stack| - 2].id in visited && !stack[|stack| - 2].Leaf?
  {
    assert CurrentChild(stack[|stack| - 2], stack[|stack| - 1], index);
  }

  lemma StartKeeps(root: Node, stack: seq<Node>, visited: set<NodeId>, index: map<NodeId, nat>,
                   index': map<NodeId, nat>, log: seq<Event>, c: Node, r: bool, answers: Answers)
    requires OnCourse(root, stack, visited, index, log, r, answers) && stack != []
    requires var n := stack[|stack| - 1];
             && n.id !in visited && !n.Leaf?
             && (n.Branch? ==> n.children != [] && c == n.children[0] && IndexOf(index', n.id) == 1)
             && (n.Decorator? ==> c == n.child)
             && (forall id :: id != n.id ==> IndexOf(index', id) == IndexOf(index, id))
    ensures var n := stack[|stack| - 1];
            && OnCourse(root, stack + [c], visited + {n.id}, index', log + [Start(n.id, false)], r, answers)
            && c.id !in visited + {n.id}
            && Distance(stack + [c], visited + {n.id}, index', r, answers) < Distance(stack, visited, index, r, answers)
  {
    hide Path;
    hide Unwind;
    hide Eval;
    var n := stack[|stack| - 1];
    PathTop(root, stack, visited, index);
    ChildId(n, c);
    PushKeepsPath(root, stack, visited, index, visited + {n.id}, index', c);
    LowerUnwind(root, stack, visited, index, index', true, answers);
    LowerUnwind(root, stack, visited, index, index', false, answers);
    assert stack == stack[..|stack| - 1] + [n];
    StartRemaining(stack[..|stack| - 1], n, visited, index, index', c, r, answers);
    hide Remaining;
    var t := Remaining(stack + [c], visited + {n.id}, index', r, answers);
    assert log + ([Start(n.id, false)] + t.log) == log + [Start(n.id, false)] + t.log;
  }

  lemma ContinueRemaining(stack: seq<Node>, visited: set<NodeId>, index: map<NodeId, nat>, index': map<NodeId, nat>,
                          r: bool, answers: Answers)
    requires stack != []
    requires var n := stack[|stack| - 1];
             && n.Branch? && n.id in visited
             && IndexOf(index, n.id) < |n.children| && ShouldContinue(n.branchKind, ToState(r))
             && IndexOf(index', n.id) == IndexOf(index, n.id) + 1
             && n.children[IndexOf(index, n.id)].id !in visited
    requires SameUnwind(stack[..|stack| - 1], index, index', answers)
    ensures var n := stack[|stack| - 1];
            Remaining(stack, visited, index, r, answers) ==
              Remaining(stack + [n.children[IndexOf(index, n.id)]], visited, index', r, answers)
  {
    var n, below := stack[|stack| - 1], stack[..|stack| - 1];
    assert stack == below + [n] && (stack + [n.children[IndexOf(index, n.id)]])[..|stack|] == stack;
    ContinueLog(n, below, index, index', r, answers);
  }

  lemma ContinueKeeps(root: Node, stack: seq<Node>, visited: set<NodeId>, index: map<NodeId, nat>,
                      index': map<NodeId, nat>, log: seq<Event>, r: bool, answers: Answers)
    requires OnCourse(root, stack, visited, index, log, r, answers) && stack != []
    requires var n := stack[|stack| - 1];
             && n.Branch? && n.id in visited
             && IndexOf(index, n.id) < |n.children| && ShouldContinue(n.branchKind, ToState(r))
             && IndexOf(index', n.id) == IndexOf(index, n.id) + 1
             && (forall id :: id != n.id ==> IndexOf(index', id) == IndexOf(index, id))
    ensures var n := stack[|stack| - 1];
            var c := n.children[IndexOf(index, n.id)];
            && OnCourse(root, stack + [c], visited, index', log, r, answers)
            && c.id !in visited
            && Distance(stack + [c], visited, index', r, answers) < Distance(stack, visited, index, r, answers)
  {
    var n := stack[|stack| - 1];
    var c := n.children[IndexOf(index, n.id)];
    assert visited + {n.id} == visited;
    assert c.id !in visited by {
      assert Untouched(n, visited, index);
      OwnId(c);
    }
    PushKeepsPath(root, stack, visited, index, visited, index', c);
    LowerUnwind(root, stack, visited, index, index', true, answers);
    LowerUnwind(root, stack, visited, index, index', false, answers);
    hide Path;
    hide Unwind;
    ContinueRemaining(stack, visited, index, index', r, answers);
    hide Remaining;
  }

  /** How the top node answers once nothing above it is left: `r` is the last child's answer, `r'` its own. */
  predicate Answered(n: Node, visited: set<NodeId>, index: map<NodeId, nat>, r: bool, r': bool, answers: Answers) {
    match n
    case Leaf(id) => r' == answers(id)
    case Decorator(id, kind, _) => id in visited && r' == (Decorate(kind, ToState(r)) == Success)
    case Branch(id, kind, children) =>
      id in visited && r' == r && !(ShouldContinue(kind, ToState(r)) && IndexOf(index, id) < |children|)
  }

  function EndedLog(n: Node, visited: set<NodeId>, log: seq<Event>, r: bool): seq<Event> {
    (if n.id in visited then log else log + [Start(n.id, true)]) + [End(n.id, r)]
  }

  lemma EndLog(stack: seq<Node>, visited: set<NodeId>, index: map<NodeId, nat>,
               log: seq<Event>, r: bool, r': bool, answers: Answers)
    requires stack != [] && Answered(stack[|stack| - 1], visited, index, r, r', answers)
    requires |stack| > 1 ==> stack[|stack| - 2].id in visited && !stack[|stack| - 2].Leaf?
    ensures var n, below := stack[|stack| - 1], stack[..|stack| - 1];
            var t, t' := Remaining(stack, visited, index, r, answers),
              Remaining(below, visited + {n.id}, index, r', answers);
            log + t.log == EndedLog(n, visited, log, r') + t'.log && t.result == t'.result && |t'.log| < |t.log|
  {
    hide Remaining;
    hide Answered;
    hide Unwind;
    var n, below := stack[|stack| - 1], stack[..|stack| - 1];
    EndRemaining(stack, visited, index, r, r', answers);
    var t := Remaining(below, visited + {n.id}, index, r', answers);
    var own := if n.id in visited then [] else [Start(n.id, true)];
    assert log + (own + [End(n.id, r')] + t.log) == log + own + [End(n.id, r')] + t.log;
    assert log + own == if n.id in visited then log else log + [Start(n.id, true)];
  }

  /** The top node is over: its end event is the next one of the evaluation. */
  lemma EndKeeps(root: Node, stack: seq<Node>, visited: set<NodeId>, index: map<NodeId, nat>,
                 log: seq<Event>, r: bool, r': bool, answers: Answers)
    requires OnCourse(root, stack, visited, index, log, r, answers)
    requires stack != [] && Answered(stack[|stack| - 1], visited, index, r, r', answers)
    ensures var n, below := stack[|stack| - 1], stack[..|stack| - 1];
            && OnCourse(root, below, visited + {n.id}, index, EndedLog(n, visited, log, r'), r', answers)
            && Distance(below, visited + {n.id}, index, r', answers) < Distance(stack, visited, index, r, answers)
    ensures |stack| > 1 ==> stack[|stack| - 2].id in visited && !stack[|stack| - 2].Leaf?
  {
    if |stack| > 1 {
      BelowTop(root, stack, visited, index);
    }
    EndLog(stack, visited, index, log, r, r', answers);
    PopKeepsPath(root, stack, visited, index);
  }

  /** A leaf that suspends on its first run. */
  lemma SuspendKeeps(root: Node, stack: seq<Node>, visited: set<NodeId>, index: map<NodeId, nat>,
                     log: seq<Event>, r: bool, r': bool, answers: Answers)
    requires OnCourse(root, stack, visited, index, log, r, answers) && stack != []
    requires stack[|stack| - 1].Leaf? && stack[|stack| - 1].id !in visited
    ensures var n := stack[|stack| - 1];
            OnCourse(root, stack, visited + {n.id}, index, log + [Start(n.id, true)], r', answers)
  {
    var m := |stack| - 1;
    var n := stack[m];
    forall i | 0 <= i < m
      ensures CurrentChild(stack[i], stack[i + 1], index) && stack[i].id in visited + {n.id}
      ensures Untouched(stack[i], visited + {n.id}, index)
    {
      BelowUndisturbed(root, stack, visited, index, visited + {n.id}, index, i);
    }
    var rest := Unwind(stack[..m], index, answers(n.id), answers);
    assert log + ([Start(n.id, true), End(n.id, answers(n.id))] + rest.log)
        == log + [Start(n.id, true)] + ([End(n.id, answers(n.id))] + rest.log);
  }
}
