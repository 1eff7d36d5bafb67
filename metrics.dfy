// The visitor of Main.c and the state it mutates. `Metrics` is the record the
// visitor receives through its client-data pointer; `Visit` is one call of the
// visitor on a cursor, `VisitChildren` stands for libclang's
// `clang_visitChildren`, which calls the visitor on each child in order (the
// visitor always answers "continue", so no child is skipped and no grandchild
// is visited by libclang itself).
module Visitor {
  import opened Ast
  import opened Dot

  /** Capacity of the parent-id stack: `int nodeStack[1024]`. */
  const StackCapacity: nat := 1024

  /** The id on top of an ancestor stack, if the stack is not empty. */
  function Top(stack: seq<int>): Option<int> {
    if stack == [] then None else Some(stack[|stack| - 1])
  }

  /** The scalar fields of the visitor's record. */
  datatype Counters = Counters(
    cyclomatic: int,
    varDeclCount: int,
    currentLoopDepth: int,
    maxLoopDepth: int,
    nodeCounter: int)

  /** The counters after a visit of `n` that started from `c`: one more
      decision point and declaration per such node of the subtree, the loop
      depth back where it was, the maximum raised to the deepest loop nesting
      reached below the current depth, and one id per node. */
  function AfterTree(n: Node, c: Counters): Counters {
    Counters(
      c.cyclomatic + Count(Preorder(n), DecisionPoints),
      c.varDeclCount + Count(Preorder(n), VarDecls),
      c.currentLoopDepth,
      Max(c.maxLoopDepth, c.currentLoopDepth + LoopNesting(n)),
      c.nodeCounter + |Preorder(n)|)
  }

  /** The counters after visits of the trees of `ns`, one after the other. */
  function AfterForest(ns: seq<Node>, c: Counters): Counters {
    Counters(
      c.cyclomatic + Count(PreorderAll(ns), DecisionPoints),
      c.varDeclCount + Count(PreorderAll(ns), VarDecls),
      c.currentLoopDepth,
      Max(c.maxLoopDepth, c.currentLoopDepth + NestingAll(ns)),
      c.nodeCounter + |PreorderAll(ns)|)
  }

  /** The counters once a node of kind `k` has been numbered and classified,
      before its children are visited. */
  function Entered(k: Kind, c: Counters): Counters {
    var level := if IsLoop(k) then 1 else 0;
    Counters(
      c.cyclomatic + (if IsDecisionPoint(k) then 1 else 0),
      c.varDeclCount + (if IsVarDecl(k) then 1 else 0),
      c.currentLoopDepth + level,
      if IsLoop(k) then Max(c.maxLoopDepth, c.currentLoopDepth + 1) else c.maxLoopDepth,
      c.nodeCounter + 1)
  }

  /** One visit is: enter the node, visit its children, leave its loop level. */
  lemma TreeStep(n: Node, c: Counters)
    ensures var e := AfterForest(n.children, Entered(n.kind, c));
            AfterTree(n, c) == e.(currentLoopDepth := e.currentLoopDepth - (if IsLoop(n.kind) then 1 else 0))
  {
    assert [n][..0] == [];
    CountAppend([n], PreorderAll(n.children), DecisionPoints);
    CountAppend([n], PreorderAll(n.children), VarDecls);
  }

  /** Visiting one more child extends the forest's effect by the child's. */
  lemma ForestStep(ns: seq<Node>, i: nat, c: Counters)
    requires i < |ns|
    ensures AfterForest(ns[..i + 1], c) == AfterTree(ns[i], AfterForest(ns[..i], c))
  {
    assert ns[..i + 1][..i] == ns[..i];
    CountAppend(PreorderAll(ns[..i]), Preorder(ns[i]), DecisionPoints);
    CountAppend(PreorderAll(ns[..i]), Preorder(ns[i]), VarDecls);
  }

  lemma EmitStep(ns: seq<Node>, i: nat, id: int, parent: Option<int>)
    requires i < |ns|
    ensures EmitAll(ns[..i + 1], id, parent)
         == EmitAll(ns[..i], id, parent) + Emit(ns[i], id + |PreorderAll(ns[..i])|, parent)
  {
    assert ns[..i + 1][..i] == ns[..i];
  }

  class Metrics {
    var cyclomatic: int
    var varDeclCount: int
    var currentLoopDepth: int
    var maxLoopDepth: int
    /** What has been written to the DOT file so far. */
    var dot: seq<Rec>
    var nodeCounter: int
    const nodeStack: array<int>
    var stackTop: int
    /** The highest index of `nodeStack` any push has written so far (-1 before
        the first push). */
    ghost var peak: int

    ghost predicate Valid()
      reads this
    {
      && nodeStack.Length == StackCapacity
      && 0 <= stackTop <= StackCapacity
      && stackTop - 1 <= peak < StackCapacity
      && 0 <= currentLoopDepth <= maxLoopDepth
    }

    ghost function Snapshot(): Counters
      reads this
    {
      Counters(cyclomatic, varDeclCount, currentLoopDepth, maxLoopDepth, nodeCounter)
    }

    /** The ids of the nodes whose visit is in progress, outermost first. */
    ghost function Ancestors(): seq<int>
      reads this, nodeStack
      requires Valid()
    {
      nodeStack[..stackTop]
    }

    /** The set-up in `main`: counters at zero, cyclomatic count at one, an
        empty stack, and the DOT file as opened so far. */
    constructor (dotFile: seq<Rec>)
      ensures Valid() && fresh(nodeStack)
      ensures dot == dotFile && nodeCounter == 0 && stackTop == 0 && Ancestors() == []
      ensures cyclomatic == 1 && varDeclCount == 0
      ensures currentLoopDepth == 0 && maxLoopDepth == 0
      ensures peak == -1
    {
      cyclomatic := 1;
      varDeclCount := 0;
      currentLoopDepth := 0;
      maxLoopDepth := 0;
      dot := dotFile;
      nodeCounter := 0;
      nodeStack := new int[StackCapacity];
      stackTop := 0;
      peak := -1;
    }

    /** The first part of a visit: take the next id, write the node statement
        and, when the stack is not empty, the edge from the id on top of it;
        then push the new id. */
    method Enter(spelling: string) returns (nodeId: int)
      requires Valid() && stackTop < StackCapacity
      modifies this, nodeStack
      ensures Valid()
      ensures nodeId == old(nodeCounter) && nodeCounter == old(nodeCounter) + 1
      ensures dot == old(dot) + OwnStatements(nodeId, spelling, Top(old(Ancestors())))
      ensures stackTop == old(stackTop) + 1 && Ancestors() == old(Ancestors()) + [nodeId]
      ensures peak == Max(old(peak), old(stackTop))
      ensures cyclomatic == old(cyclomatic) && varDeclCount == old(varDeclCount)
      ensures currentLoopDepth == old(currentLoopDepth) && maxLoopDepth == old(maxLoopDepth)
    {
      nodeId := nodeCounter;
      nodeCounter := nodeCounter + 1;
      dot := dot + [NodeRec(nodeId, spelling)];
      if stackTop > 0 {
        var parentId := nodeStack[stackTop - 1];
        dot := dot + [EdgeRec(parentId, nodeId)];
      }
      peak := Max(peak, stackTop);
      nodeStack[stackTop] := nodeId;
      stackTop := stackTop + 1;
    }

    /** The metric updates of a visit: one more decision point or variable
        declaration when the kind is one, and one more loop level (with the
        running maximum) when it is a loop. Answers whether it was a loop. */
    method Classify(kind: Kind) returns (isLoop: bool)
      requires Valid()
      modifies this
      ensures Valid()
      ensures isLoop == IsLoop(kind)
      ensures cyclomatic == old(cyclomatic) + (if IsDecisionPoint(kind) then 1 else 0)
      ensures varDeclCount == old(varDeclCount) + (if IsVarDecl(kind) then 1 else 0)
      ensures currentLoopDepth == old(currentLoopDepth) + (if isLoop then 1 else 0)
      ensures maxLoopDepth == Max(old(maxLoopDepth), currentLoopDepth)
      ensures nodeCounter == old(nodeCounter) && dot == old(dot) && stackTop == old(stackTop)
      ensures peak == old(peak)
    {
      if IsDecisionPoint(kind) {
        cyclomatic := cyclomatic + 1;
      }
      if IsVarDecl(kind) {
        varDeclCount := varDeclCount + 1;
      }
      isLoop := IsLoop(kind);
      if isLoop {
        currentLoopDepth := currentLoopDepth + 1;
        if currentLoopDepth > maxLoopDepth {
          maxLoopDepth := currentLoopDepth;
        }
      }
    }

    /** One call of the visitor on `n`: number it, write its statements, push
        it, count it, visit its children, then undo the loop level and the
        push. The counters grow by what the subtree holds; the stack and the
        loop depth are as before. */
    method Visit(n: Node)
      requires Valid()
      requires stackTop + Height(n) <= StackCapacity
      modifies this, nodeStack
      ensures Valid()
      ensures stackTop == old(stackTop) && Ancestors() == old(Ancestors())
      ensures Snapshot() == AfterTree(n, old(Snapshot()))
      ensures cyclomatic >= old(cyclomatic) && maxLoopDepth >= old(maxLoopDepth)
      ensures peak == Max(old(peak), old(stackTop) + Height(n) - 1)
      ensures dot == old(dot) + Emit(n, old(nodeCounter), Top(old(Ancestors())))
      decreases n, 1
    {
      ghost var outer := Ancestors();
      var nodeId := Enter(n.spelling);
      ghost var own := OwnStatements(nodeId, n.spelling, Top(outer));
      var isLoop := Classify(n.kind);
      assert Snapshot() == Entered(n.kind, old(Snapshot()));

      VisitChildren(n);

      if isLoop {
        currentLoopDepth := currentLoopDepth - 1;
      }
      stackTop := stackTop - 1;
      assert Ancestors() == outer;
      TreeStep(n, old(Snapshot()));
      assert (old(dot) + own) + EmitAll(n.children, nodeId + 1, Some(nodeId))
          == old(dot) + (own + EmitAll(n.children, nodeId + 1, Some(nodeId)));
    }

    /** `clang_visitChildren(n, visitor, ...)`: the visitor on each child of
        `n`, first to last, with the stack as it is at the call. */
    method VisitChildren(n: Node)
      requires Valid()
      requires stackTop + HeightAll(n.children) <= StackCapacity
      modifies this, nodeStack
      ensures Valid()
      ensures stackTop == old(stackTop) && Ancestors() == old(Ancestors())
      ensures Snapshot() == AfterForest(n.children, old(Snapshot()))
      ensures dot == old(dot) + EmitAll(n.children, old(nodeCounter), Top(old(Ancestors())))
      ensures peak == Max(old(peak), old(stackTop) + HeightAll(n.children) - 1)
      decreases n, 0
    {
      var children := n.children;
      ghost var parent := Top(Ancestors());
      var i := 0;
      while i < |children|
        invariant 0 <= i <= |children|
        invariant Valid()
        invariant stackTop == old(stackTop) && Ancestors() == old(Ancestors())
        invariant Snapshot() == AfterForest(children[..i], old(Snapshot()))
        invariant dot == old(dot) + EmitAll(children[..i], old(nodeCounter), parent)
        invariant peak == Max(old(peak), old(stackTop) + HeightAll(children[..i]) - 1)
      {
        var child := children[i];
        HeightAllBounds(children, i);
        Visit(child);
        ghost var done := EmitAll(children[..i], old(nodeCounter), parent);
        assert (old(dot) + done) + Emit(child, old(nodeCounter) + |PreorderAll(children[..i])|, parent)
            == old(dot) + (done + Emit(child, old(nodeCounter) + |PreorderAll(children[..i])|, parent));
        HeightAllStep(children, i);
        ForestStep(children, i, old(Snapshot()));
        EmitStep(children, i, old(nodeCounter), parent);
        i := i + 1;
      }
      assert children[..i] == children;
    }
  }
}
