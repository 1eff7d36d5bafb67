// The analysing part of `main`: open the graph, set up the metrics record,
// let libclang call the visitor on each child of the translation-unit cursor,
// close the graph, and report. The translation unit itself is never passed to
// the visitor, so it gets no id and no node statement: each of its children
// starts a tree of its own in the DOT output.
module Driver {
  import opened Ast
  import opened Dot
  import opened Visitor

  /** What `main` holds once the traversal is over: the metrics record and the
      full DOT file. */
  datatype Report = Report(
    cyclomatic: int,
    varDeclCount: int,
    currentLoopDepth: int,
    maxLoopDepth: int,
    nodeCounter: int,
    stackTop: int,
    dot: seq<Rec>)

  datatype AnalysisError = TooDeep

  datatype Result<T> = Ok(value: T) | Err(error: AnalysisError)

  /** The DOT file for the trees `tops` hanging under the translation unit. */
  function DotFile(tops: seq<Node>): seq<Rec> {
    [GraphOpen] + EmitAll(tops, 0, None) + [GraphClose]
  }

  /** The analysis of the tree under `root`, the translation-unit cursor: the
      cyclomatic count is one plus the decision points, the declaration count
      is the variable declarations, the maximum loop depth is the deepest loop
      nesting, every visited node got one id, the loop depth and the stack are
      back at zero, and the DOT file is the preorder walk of the trees below
      the root between the graph's opening and closing lines. The highest
      slot of the parent-id stack the walk writes is one below the height of
      the tallest tree, so the depth requirement is exactly what keeps every
      push inside the 1024 slots. */
  method Analyze(root: Node) returns (r: Report, ghost highest: int)
    requires HeightAll(root.children) <= StackCapacity
    ensures r.cyclomatic == 1 + Count(PreorderAll(root.children), DecisionPoints)
    ensures r.varDeclCount == Count(PreorderAll(root.children), VarDecls)
    ensures r.maxLoopDepth == NestingAll(root.children)
    ensures r.currentLoopDepth == 0 && r.stackTop == 0
    ensures r.nodeCounter == |PreorderAll(root.children)|
    ensures r.dot == DotFile(root.children)
    ensures highest == HeightAll(root.children) - 1 < StackCapacity
  {
    var metrics := new Metrics([GraphOpen]);
    metrics.VisitChildren(root);
    highest := metrics.peak;
    r := Report(metrics.cyclomatic, metrics.varDeclCount, metrics.currentLoopDepth,
                metrics.maxLoopDepth, metrics.nodeCounter, metrics.stackTop,
                metrics.dot + [GraphClose]);
  }

  /** The analysis with the depth check the visitor lacks: a tree too deep
      for the parent-id stack is refused instead of overrunning it. */
  method AnalyzeChecked(root: Node) returns (res: Result<Report>)
    ensures res.Err? <==> HeightAll(root.children) > StackCapacity
    ensures res.Ok? ==>
      && res.value.cyclomatic == 1 + Count(PreorderAll(root.children), DecisionPoints)
      && res.value.varDeclCount == Count(PreorderAll(root.children), VarDecls)
      && res.value.maxLoopDepth == NestingAll(root.children)
      && res.value.currentLoopDepth == 0 && res.value.stackTop == 0
      && res.value.nodeCounter == |PreorderAll(root.children)|
      && res.value.dot == DotFile(root.children)
  {
    if HeightAll(root.children) > StackCapacity {
      return Err(TooDeep);
    }
    var r;
    ghost var highest;
    r, highest := Analyze(root);
    return Ok(r);
  }

  /** The node statements of the DOT file number the visited nodes 0, 1, 2,
      ... in preorder, each labelled with its spelling; so no id repeats. */
  lemma DotFileNodes(tops: seq<Node>)
    ensures NodeRecs(DotFile(tops)) == Numbered(PreorderAll(tops), 0)
    ensures forall k | 0 <= k < |NodeRecs(DotFile(tops))| :: NodeRecs(DotFile(tops))[k].id == k
  {
    var body := EmitAll(tops, 0, None);
    NodeRecsAppend([GraphOpen] + body, [GraphClose]);
    NodeRecsAppend([GraphOpen], body);
    assert NodeRecs([GraphOpen]) == [] by {
      assert [GraphOpen][..0] == [];
    }
    assert NodeRecs([GraphClose]) == [] by {
      assert [GraphClose][..0] == [];
    }
    EmitAllNumbering(tops, 0, None);
  }

  /** One edge statement per visited node, except the trees' roots. */
  lemma DotFileEdges(tops: seq<Node>)
    ensures |EdgeRecs(DotFile(tops))| == |NodeRecs(DotFile(tops))| - |tops|
  {
    var body := EmitAll(tops, 0, None);
    EdgeRecsAppend([GraphOpen] + body, [GraphClose]);
    EdgeRecsAppend([GraphOpen], body);
    assert EdgeRecs([GraphOpen]) == [] by {
      assert [GraphOpen][..0] == [];
    }
    assert EdgeRecs([GraphClose]) == [] by {
      assert [GraphClose][..0] == [];
    }
    EmitAllEdgeCount(tops, 0, None);
    DotFileNodes(tops);
  }

  /** No edge of the DOT file dangles: each one follows the node statement of
      its child, and its parent, with a smaller id, was declared before it. */
  lemma DotFileWellFormed(tops: seq<Node>)
    ensures EdgesWellFormed(DotFile(tops), {})
  {
    var body := EmitAll(tops, 0, None);
    EmitAllWellFormed(tops, 0, None, {} + Declared([GraphOpen]));
    EdgesWellFormedAppend([GraphOpen], body, {});
    EdgesWellFormedAppend([GraphOpen] + body, [GraphClose], {});
  }

  /** A chain of `k` nested nodes, such as the left-nested additions of a sum
      `1 + 1 + ... + 1`. */
  function Chain(k: nat): Node
    requires k >= 1
  {
    Node(Other, "", if k == 1 then [] else [Chain(k - 1)])
  }

  lemma {:induction false} ChainHeight(k: nat)
    requires k >= 1
    ensures Height(Chain(k)) == k
  {
    if k > 1 {
      ChainHeight(k - 1);
    }
  }

  lemma {:induction false} ChainSize(k: nat)
    requires k >= 1
    ensures |Preorder(Chain(k))| == k
  {
    if k > 1 {
      ChainSize(k - 1);
      var below := [Chain(k - 1)];
      assert Chain(k).children == below && below[..0] == [];
      assert PreorderAll(below) == Preorder(Chain(k - 1));
    } else {
      assert PreorderAll([]) == [];
    }
  }

  /** A translation unit whose one top-level tree is a chain of 1025 nodes.
      The highest slot a walk writes is one below the tallest tree's height
      (`Analyze`, and `Visit` for each subtree), which here is slot 1024: the
      visit of the chain's last node starts with 1024 ids on the stack, and
      the unchecked push `nodeStack[stackTop++]` writes one slot past the
      array. `AnalyzeChecked` refuses this tree. */
  lemma DeepChainOverflows()
    ensures var root := Node(Other, "", [Chain(StackCapacity + 1)]);
            && HeightAll(root.children) - 1 == StackCapacity
            && HeightAll(root.children) > StackCapacity
  {
    ChainHeight(StackCapacity + 1);
  }

  /** One node fewer and the walk fits: a 1024-node chain fills the stack up
      to its last slot, 1023, so the 1024-slot bound is reached and is tight. */
  method ChainAtCapacity() returns (r: Report, ghost highest: int)
    ensures highest == StackCapacity - 1
    ensures r.nodeCounter == StackCapacity && r.stackTop == 0
  {
    var root := Node(Other, "", [Chain(StackCapacity)]);
    ChainHeight(StackCapacity);
    ChainSize(StackCapacity);
    assert [Chain(StackCapacity)][..0] == [];
    r, highest := Analyze(root);
  }

  /** Two loops side by side nest one deep; both are decision points, so the
      cyclomatic count is 3. */
  lemma SiblingLoops()
    ensures var tops := [Node(ForStmt, "for", []), Node(WhileStmt, "while", [])];
            && NestingAll(tops) == 1
            && Count(PreorderAll(tops), DecisionPoints) == 2
            && |PreorderAll(tops)| == 2
  {
  }

  /** A loop inside a loop nests two deep, with the same cyclomatic count 3. */
  lemma NestedLoops()
    ensures var tops := [Node(ForStmt, "for", [Node(WhileStmt, "while", [])])];
            && NestingAll(tops) == 2
            && Count(PreorderAll(tops), DecisionPoints) == 2
            && |PreorderAll(tops)| == 2
  {
  }
}
