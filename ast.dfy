// The syntax tree the analyser walks, and the quantities over it that the
// visitor's counters are meant to equal. The tree stands in for the cursors
// libclang hands to the visitor: each node carries the cursor kind (reduced to
// the kinds the visitor distinguishes) and the cursor spelling.
module Ast {

  /** The cursor kinds the visitor tests for; every other kind is `Other`. */
  datatype Kind = IfStmt | ForStmt | WhileStmt | CaseStmt | ConditionalOperator | VarDecl | Other

  datatype Node = Node(kind: Kind, spelling: string, children: seq<Node>)

  /** Kinds that add one to the cyclomatic count. */
  predicate IsDecisionPoint(k: Kind) {
    k.IfStmt? || k.ForStmt? || k.WhileStmt? || k.CaseStmt? || k.ConditionalOperator?
  }

  /** Kinds that open a level of loop nesting. */
  predicate IsLoop(k: Kind) {
    k.ForStmt? || k.WhileStmt?
  }

  predicate IsVarDecl(k: Kind) {
    k.VarDecl?
  }

  /** The two tallies the visitor keeps over node kinds. */
  datatype Tally = DecisionPoints | VarDecls

  predicate Counts(t: Tally, k: Kind) {
    match t
    case DecisionPoints => IsDecisionPoint(k)
    case VarDecls => IsVarDecl(k)
  }

  function Max(a: int, b: int): int {
    if a < b then b else a
  }

  /** All nodes of `n`, in the order a depth-first, parent-first walk meets them. */
  function Preorder(n: Node): seq<Node>
    decreases n, 1
  {
    [n] + PreorderAll(n.children)
  }

  /** The preorder walks of the trees of `ns`, one after the other. */
  function PreorderAll(ns: seq<Node>): seq<Node>
    decreases ns, 0
  {
    if ns == [] then [] else PreorderAll(ns[..|ns| - 1]) + Preorder(ns[|ns| - 1])
  }

  /** How many nodes of `s` have a kind that tally `t` counts. */
  function Count(s: seq<Node>, t: Tally): (c: nat)
    ensures c <= |s|
  {
    if s == [] then 0 else Count(s[..|s| - 1], t) + (if Counts(t, s[|s| - 1].kind) then 1 else 0)
  }

  lemma {:induction false} CountAppend(a: seq<Node>, b: seq<Node>, t: Tally)
    ensures Count(a + b, t) == Count(a, t) + Count(b, t)
    decreases |b|
  {
    if b == [] {
      assert a + b == a;
    } else {
      var b' := b[..|b| - 1];
      assert (a + b)[..|a + b| - 1] == a + b';
      CountAppend(a, b', t);
    }
  }

  /** `Count` really counts: it is the number of positions of `s` whose kind tally `t` counts. */
  lemma {:induction false} CountIsCardinality(s: seq<Node>, t: Tally)
    ensures Count(s, t) == |set i | 0 <= i < |s| && Counts(t, s[i].kind)|
    decreases |s|
  {
    if s != [] {
      var s' := s[..|s| - 1];
      CountIsCardinality(s', t);
      var lhs := set i | 0 <= i < |s| && Counts(t, s[i].kind);
      var rhs := set i | 0 <= i < |s'| && Counts(t, s'[i].kind);
      if Counts(t, s[|s| - 1].kind) {
        assert lhs == rhs + {|s| - 1};
      } else {
        assert lhs == rhs;
      }
    }
  }

  /** The greatest number of loop nodes on a path from `n` down to one of its nodes. */
  function LoopNesting(n: Node): nat
    decreases n, 1
  {
    (if IsLoop(n.kind) then 1 else 0) + NestingAll(n.children)
  }

  /** The greatest `LoopNesting` among the trees of `ns` (0 for none). */
  function NestingAll(ns: seq<Node>): nat
    decreases ns, 0
  {
    if ns == [] then 0 else Max(NestingAll(ns[..|ns| - 1]), LoopNesting(ns[|ns| - 1]))
  }

  /** Number of nodes on the longest path from `n` down to a leaf, `n` included. */
  function Height(n: Node): nat
    decreases n, 1
  {
    1 + HeightAll(n.children)
  }

  /** The greatest `Height` among the trees of `ns` (0 for none). */
  function HeightAll(ns: seq<Node>): nat
    decreases ns, 0
  {
    if ns == [] then 0 else Max(HeightAll(ns[..|ns| - 1]), Height(ns[|ns| - 1]))
  }

  lemma {:induction false} HeightAllBounds(ns: seq<Node>, k: nat)
    requires k < |ns|
    ensures Height(ns[k]) <= HeightAll(ns)
    decreases |ns|
  {
    if k < |ns| - 1 {
      HeightAllBounds(ns[..|ns| - 1], k);
    }
  }

  /** The stack room for one more tree is the larger of the room so far and that tree's height. */
  lemma HeightAllStep(ns: seq<Node>, i: nat)
    requires i < |ns|
    ensures HeightAll(ns[..i + 1]) == Max(HeightAll(ns[..i]), Height(ns[i]))
  {
    assert ns[..i + 1][..i] == ns[..i];
  }

  lemma {:induction false} NestingAllBounds(ns: seq<Node>, k: nat)
    requires k < |ns|
    ensures LoopNesting(ns[k]) <= NestingAll(ns)
    decreases |ns|
  {
    if k < |ns| - 1 {
      NestingAllBounds(ns[..|ns| - 1], k);
    }
  }

  // Paths. A path into a forest `ns` is a non-empty sequence of child indices:
  // the first picks a tree of `ns`, each next one a child of the node reached.

  predicate IsPath(ns: seq<Node>, path: seq<nat>)
    decreases |path|
  {
    |path| > 0 && path[0] < |ns| &&
    (|path| == 1 || IsPath(ns[path[0]].children, path[1..]))
  }

  /** The number of loop nodes among the nodes `path` passes through. */
  function LoopsOnPath(ns: seq<Node>, path: seq<nat>): nat
    requires IsPath(ns, path)
    decreases |path|
  {
    var n := ns[path[0]];
    (if IsLoop(n.kind) then 1 else 0) + (if |path| == 1 then 0 else LoopsOnPath(n.children, path[1..]))
  }

  /** No path meets more loop nodes than `NestingAll` says. */
  lemma {:induction false} NestingBoundsPaths(ns: seq<Node>, path: seq<nat>)
    requires IsPath(ns, path)
    ensures LoopsOnPath(ns, path) <= NestingAll(ns)
    decreases |path|
  {
    var n := ns[path[0]];
    if |path| > 1 {
      NestingBoundsPaths(n.children, path[1..]);
    }
    NestingAllBounds(ns, path[0]);
  }

  /** The index of a tree of `ns` whose nesting is the forest's. */
  function DeepestTree(ns: seq<Node>): (k: nat)
    requires ns != []
    ensures k < |ns| && LoopNesting(ns[k]) == NestingAll(ns)
    decreases |ns|
  {
    var last := |ns| - 1;
    if last == 0 || LoopNesting(ns[last]) >= NestingAll(ns[..last]) then last
    else DeepestTree(ns[..last])
  }

  /** A path that meets `NestingAll(ns)` loop nodes, so the bound is attained. */
  function DeepestPath(ns: seq<Node>): (path: seq<nat>)
    requires ns != []
    ensures IsPath(ns, path) && LoopsOnPath(ns, path) == NestingAll(ns)
    decreases ns
  {
    var k := DeepestTree(ns);
    if ns[k].children == [] then
      assert LoopNesting(ns[k]) == if IsLoop(ns[k].kind) then 1 else 0;
      [k]
    else
      var rest := DeepestPath(ns[k].children);
      assert ([k] + rest)[1..] == rest;
      [k] + rest
  }
}
