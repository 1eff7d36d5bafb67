// The DOT output of the analyser, as the sequence of statements it writes to
// `ast.dot`, and what the depth-first walk writes for a tree. Statements are
// kept as records rather than formatted text: a node statement
// `node<id> [label="<spelling>"];`, an edge statement `node<p> -> node<c>;`,
// and the `digraph G {` / `}` lines around them.
module Dot {
  import opened Ast

  datatype Option<T> = None | Some(value: T)

  datatype Rec =
    | GraphOpen
    | NodeRec(id: int, text: string)
    | EdgeRec(parentId: int, childId: int)
    | GraphClose

  /** The statements the visitor writes for the node it is visiting, before it
      descends: the node statement, and the edge from the parent if there is one. */
  function OwnStatements(id: int, text: string, parent: Option<int>): seq<Rec>
  {
    [NodeRec(id, text)] + (if parent.Some? then [EdgeRec(parent.value, id)] else [])
  }

  /** The statements the visitor writes for `n` and its subtree when `n` gets id
      `id` and `parent` is the id on top of the ancestor stack, if any: its node
      statement, the edge from the parent, then its children's statements with
      `n` as their parent. */
  function Emit(n: Node, id: int, parent: Option<int>): seq<Rec>
    decreases n, 1
  {
    OwnStatements(id, n.spelling, parent) + EmitAll(n.children, id + 1, Some(id))
  }

  /** The statements written for the trees of `ns` visited one after the other,
      the first getting id `id`, all under the same `parent`. */
  function EmitAll(ns: seq<Node>, id: int, parent: Option<int>): seq<Rec>
    decreases ns, 0
  {
    if ns == [] then []
    else
      var init := ns[..|ns| - 1];
      EmitAll(init, id, parent) + Emit(ns[|ns| - 1], id + |PreorderAll(init)|, parent)
  }

  /** The node statements of `s`, in order. */
  function NodeRecs(s: seq<Rec>): (r: seq<Rec>)
    ensures |r| <= |s|
  {
    if s == [] then []
    else NodeRecs(s[..|s| - 1]) + (if s[|s| - 1].NodeRec? then [s[|s| - 1]] else [])
  }

  /** The edge statements of `s`, in order. */
  function EdgeRecs(s: seq<Rec>): (r: seq<Rec>)
    ensures |r| <= |s|
  {
    if s == [] then []
    else EdgeRecs(s[..|s| - 1]) + (if s[|s| - 1].EdgeRec? then [s[|s| - 1]] else [])
  }

  /** Node statements for `nodes` numbered consecutively from `id`. */
  function Numbered(nodes: seq<Node>, id: int): (r: seq<Rec>)
  {
    seq(|nodes|, k requires 0 <= k < |nodes| => NodeRec(id + k, nodes[k].spelling))
  }

  /** The ids that have a node statement in `s`. */
  function Declared(s: seq<Rec>): set<int>
  {
    set i | 0 <= i < |s| && s[i].NodeRec? :: s[i].id
  }

  /** Every edge statement of `s` comes right after the node statement of its
      child, and runs from a smaller id that is in `known` or has a node
      statement earlier in `s`. */
  predicate EdgesWellFormed(s: seq<Rec>, known: set<int>)
  {
    forall j | 0 <= j < |s| && s[j].EdgeRec? ::
      && 0 < j && s[j - 1].NodeRec? && s[j - 1].id == s[j].childId
      && s[j].parentId < s[j].childId
      && s[j].parentId in known + Declared(s[..j])
  }

  lemma {:induction false} NodeRecsAppend(a: seq<Rec>, b: seq<Rec>)
    ensures NodeRecs(a + b) == NodeRecs(a) + NodeRecs(b)
    decreases |b|
  {
    if b == [] {
      assert a + b == a;
    } else {
      assert (a + b)[..|a + b| - 1] == a + b[..|b| - 1];
      NodeRecsAppend(a, b[..|b| - 1]);
    }
  }

  lemma {:induction false} EdgeRecsAppend(a: seq<Rec>, b: seq<Rec>)
    ensures EdgeRecs(a + b) == EdgeRecs(a) + EdgeRecs(b)
    decreases |b|
  {
    if b == [] {
      assert a + b == a;
    } else {
      assert (a + b)[..|a + b| - 1] == a + b[..|b| - 1];
      EdgeRecsAppend(a, b[..|b| - 1]);
    }
  }

  lemma NumberedAppend(a: seq<Node>, b: seq<Node>, id: int)
    ensures Numbered(a + b, id) == Numbered(a, id) + Numbered(b, id + |a|)
  {
  }

  lemma DeclaredAppend(a: seq<Rec>, b: seq<Rec>)
    ensures Declared(a + b) == Declared(a) + Declared(b)
  {
    forall x | x in Declared(a + b) ensures x in Declared(a) + Declared(b) {
      var i :| 0 <= i < |a + b| && (a + b)[i].NodeRec? && (a + b)[i].id == x;
      if i >= |a| {
        assert b[i - |a|] == (a + b)[i];
      }
    }
    forall x | x in Declared(a) ensures x in Declared(a + b) {
      var i :| 0 <= i < |a| && a[i].NodeRec? && a[i].id == x;
      assert (a + b)[i] == a[i];
    }
    forall x | x in Declared(b) ensures x in Declared(a + b) {
      var i :| 0 <= i < |b| && b[i].NodeRec? && b[i].id == x;
      assert (a + b)[|a| + i] == b[i];
    }
  }

  /** Well-formedness composes: `b` may rely on what `a` declared. */
  lemma EdgesWellFormedAppend(a: seq<Rec>, b: seq<Rec>, known: set<int>)
    requires EdgesWellFormed(a, known)
    requires EdgesWellFormed(b, known + Declared(a))
    ensures EdgesWellFormed(a + b, known)
  {
    var s := a + b;
    forall j | 0 <= j < |s| && s[j].EdgeRec?
      ensures && 0 < j && s[j - 1].NodeRec? && s[j - 1].id == s[j].childId
              && s[j].parentId < s[j].childId
              && s[j].parentId in known + Declared(s[..j])
    {
      if j < |a| {
        assert s[..j] == a[..j];
        assert s[j] == a[j] && s[j - 1] == a[j - 1];
      } else {
        var k := j - |a|;
        assert s[j] == b[k];
        assert s[j - 1] == b[k - 1];
        assert s[..j] == a + b[..k];
        DeclaredAppend(a, b[..k]);
      }
    }
  }

  /** The node statements written for a subtree number its nodes in preorder,
      consecutively from the id the subtree's root gets, each with its spelling. */
  lemma {:induction false} EmitNumbering(n: Node, id: int, parent: Option<int>)
    ensures NodeRecs(Emit(n, id, parent)) == Numbered(Preorder(n), id)
    decreases n, 1
  {
    var head := [NodeRec(id, n.spelling)];
    var edge: seq<Rec> := if parent.Some? then [EdgeRec(parent.value, id)] else [];
    var rest := EmitAll(n.children, id + 1, Some(id));
    NodeRecsAppend(head + edge, rest);
    NodeRecsAppend(head, edge);
    assert NodeRecs(head) == head by {
      assert head[..0] == [];
    }
    assert NodeRecs(edge) == [] by {
      if parent.Some? { assert edge[..0] == []; }
    }
    EmitAllNumbering(n.children, id + 1, Some(id));
    NumberedAppend([n], PreorderAll(n.children), id);
  }

  lemma {:induction false} EmitAllNumbering(ns: seq<Node>, id: int, parent: Option<int>)
    ensures NodeRecs(EmitAll(ns, id, parent)) == Numbered(PreorderAll(ns), id)
    decreases ns, 0
  {
    if ns != [] {
      var init := ns[..|ns| - 1];
      var last := ns[|ns| - 1];
      var start := id + |PreorderAll(init)|;
      NodeRecsAppend(EmitAll(init, id, parent), Emit(last, start, parent));
      EmitAllNumbering(init, id, parent);
      EmitNumbering(last, start, parent);
      NumberedAppend(PreorderAll(init), Preorder(last), id);
    }
  }

  /** One edge statement per node of the subtree, except for the subtree's root
      when there is no parent on the stack. */
  lemma {:induction false} EmitEdgeCount(n: Node, id: int, parent: Option<int>)
    ensures |EdgeRecs(Emit(n, id, parent))| == |Preorder(n)| - (if parent.Some? then 0 else 1)
    decreases n, 1
  {
    var head := [NodeRec(id, n.spelling)];
    var edge: seq<Rec> := if parent.Some? then [EdgeRec(parent.value, id)] else [];
    var rest := EmitAll(n.children, id + 1, Some(id));
    EdgeRecsAppend(head + edge, rest);
    EdgeRecsAppend(head, edge);
    assert EdgeRecs(head) == [] by {
      assert head[..0] == [];
    }
    assert EdgeRecs(edge) == edge by {
      if parent.Some? { assert edge[..0] == []; }
    }
    EmitAllEdgeCount(n.children, id + 1, Some(id));
  }

  lemma {:induction false} EmitAllEdgeCount(ns: seq<Node>, id: int, parent: Option<int>)
    ensures |EdgeRecs(EmitAll(ns, id, parent))| == |PreorderAll(ns)| - (if parent.Some? then 0 else |ns|)
    decreases ns, 0
  {
    if ns != [] {
      var init := ns[..|ns| - 1];
      var last := ns[|ns| - 1];
      var start := id + |PreorderAll(init)|;
      EdgeRecsAppend(EmitAll(init, id, parent), Emit(last, start, parent));
      EmitAllEdgeCount(init, id, parent);
      EmitEdgeCount(last, start, parent);
      assert |PreorderAll(ns)| == |PreorderAll(init)| + |Preorder(last)|;
      assert |EdgeRecs(EmitAll(ns, id, parent))|
          == |EdgeRecs(EmitAll(init, id, parent))| + |EdgeRecs(Emit(last, start, parent))|;
    }
  }

  /** What is written for a subtree has no dangling edge, given that the parent
      on the stack (if any) is already known and has a smaller id. */
  lemma {:induction false} EmitWellFormed(n: Node, id: int, parent: Option<int>, known: set<int>)
    requires parent.Some? ==> parent.value in known && parent.value < id
    ensures EdgesWellFormed(Emit(n, id, parent), known)
    decreases n, 1
  {
    var head := [NodeRec(id, n.spelling)] + (if parent.Some? then [EdgeRec(parent.value, id)] else []);
    var rest := EmitAll(n.children, id + 1, Some(id));
    assert EdgesWellFormed(head, known);
    assert id in Declared(head) by {
      assert head[0] == NodeRec(id, n.spelling);
    }
    EmitAllWellFormed(n.children, id + 1, Some(id), known + Declared(head));
    EdgesWellFormedAppend(head, rest, known);
  }

  lemma {:induction false} EmitAllWellFormed(ns: seq<Node>, id: int, parent: Option<int>, known: set<int>)
    requires parent.Some? ==> parent.value in known && parent.value < id
    ensures EdgesWellFormed(EmitAll(ns, id, parent), known)
    decreases ns, 0
  {
    if ns != [] {
      var init := ns[..|ns| - 1];
      var last := ns[|ns| - 1];
      var prefix := EmitAll(init, id, parent);
      var start := id + |PreorderAll(init)|;
      EmitAllWellFormed(init, id, parent, known);
      EmitWellFormed(last, start, parent, known + Declared(prefix));
      EdgesWellFormedAppend(prefix, Emit(last, start, parent), known);
    }
  }
}
