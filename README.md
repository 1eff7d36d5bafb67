# AST complexity visualiser: the visitor, modelled in Dafny

The program parses a C file with libclang, walks its syntax tree once, and does
three things during that walk. It numbers every cursor it visits. It writes a
Graphviz DOT graph, one node statement per cursor and one edge per parent/child
pair, and it finds each parent through an explicit 1024-slot stack of ids. It
also keeps four metrics: the cyclomatic count (1 plus the decision points), the
number of variable declarations, the current loop depth and the maximum loop
depth.

This project models that walk: the `visitor` callback and the part of `main`
that sets up the metrics record and starts the traversal.

- `ast.dfy` (module `Ast`): the tree that stands in for libclang's cursors,
  with the cursor kinds the visitor tests. It also holds the quantities the
  counters should equal: the preorder walk, tallies of decision points and
  variable declarations, loop nesting, height, and paths into the tree.
- `dot.dfy` (module `Dot`): the DOT output as a sequence of records, and
  `Emit`/`EmitAll`, which give the records a walk writes for a tree or a
  forest. It proves that ids run consecutively in preorder, that edges are
  counted exactly, and that no edge dangles.
- `metrics.dfy` (module `Visitor`): the `Metrics` record as a class. Its
  `nodeStack` is an `array<int>` of capacity 1024. `Visit` is one call of
  `visitor`. `VisitChildren` stands for `clang_visitChildren`, which calls the
  visitor on each child in turn because the visitor always answers "continue".
  Both methods are proved against the spec functions.
- `driver.dfy` (module `Driver`): the start-up and traversal in `main`. It
  wraps the output between the `digraph G {` and `}` lines, states the final
  report, and holds the depth finding below.

Three consequences of the code are easy to miss:

- The translation-unit cursor is never passed to the visitor. `main` calls
  `clang_visitChildren` on it (Main.c:111). So the output is a forest: each
  top-level declaration is an unparented node. The number of edges is the
  number of node statements minus the number of top-level children, not one
  fewer than the node statements, as a single rooted tree would have. An empty
  translation unit yields no node statement at all.
- Loops are decision points. `ForStmt` and `WhileStmt` are in the cyclomatic
  test (Main.c:40-45). So two nested loops give a cyclomatic count of 3.
- The code does not escape labels (Main.c:26). No escaping property is
  claimed.

## Model

| member | source | states |
|---|---|---|
| Ast.CountAppend | Main.c:40-50 | the tally of decision points or declarations over two walks is the sum of their tallies |
| Ast.CountIsCardinality | Main.c:40-50 | the tally equals the number of visited positions whose kind is counted, so each matching node adds exactly one |
| Ast.NestingBoundsPaths | Main.c:53-57 | no root-to-node path passes through more ForStmt/WhileStmt nodes than the forest's loop nesting |
| Ast.DeepestPath | Main.c:53-57 | some path passes through exactly as many loop nodes as the loop nesting, so the nesting is the maximum over paths |
| Ast.DeepestTree | Main.c:56-57 | some tree of a non-empty forest reaches the forest's loop nesting |
| Ast.HeightAllBounds | Main.c:36 | every tree of a forest is no taller than the forest, so the stack room a forest needs covers each child |
| Ast.HeightAllStep | Main.c:61 | the stack room the children need after one more child is the larger of the room so far and that child's height |
| Ast.NestingAllBounds | Main.c:56-57 | every tree's loop nesting is at most the forest's |
| Dot.EmitNumbering | Main.c:20-26 | the node statements written for a subtree number its nodes consecutively in preorder from the root's id, each with its spelling |
| Dot.EmitAllNumbering | Main.c:20-26 | the same for the trees of a forest visited one after another |
| Dot.EmitEdgeCount | Main.c:30-33 | a subtree gets one edge per node, except its root when the stack is empty |
| Dot.EmitAllEdgeCount | Main.c:30-33 | a forest visited with an empty stack gets one edge per node minus one per tree |
| Dot.EmitWellFormed | Main.c:26-36 | every edge of a subtree follows its child's node statement, and runs from a smaller id that was declared earlier |
| Dot.EmitAllWellFormed | Main.c:26-36 | the same for a forest |
| Dot.EdgesWellFormedAppend | Main.c:30-33 | well-formed output stays well-formed when more well-formed output that relies on it is appended |
| Visitor.TreeStep | Main.c:20-66 | one visit's effect on the counters is entering the node, then its children's effect, then leaving its loop level |
| Visitor.ForestStep | Main.c:61 | visiting one more child extends the effect of the children so far by that child's effect |
| Visitor.EmitStep | Main.c:61 | the output of one more child is appended after the children so far, numbered from where they stopped |
| Visitor.Metrics.constructor | Main.c:100-108 | the record starts with cyclomatic 1, every other counter 0, an empty stack, and the DOT header already written |
| Visitor.Metrics.Enter | Main.c:20-36 | takes the next id; writes its node statement, then the edge from the stack's top id when the stack is not empty; pushes the id into the slot at the current stack depth, which becomes the highest slot written if it is above the previous one; no metric changes |
| Visitor.Metrics.Classify | Main.c:39-58 | adds one to cyclomatic for If/For/While/Case/ConditionalOperator and one to the declaration count for VarDecl; a loop raises the depth by one and the maximum to at least the new depth |
| Visitor.Metrics.Visit | Main.c:18-72 | after visiting a subtree, the stack and its entries are as before, the loop depth is restored, cyclomatic and the maximum depth have not decreased, each counter has grown by the subtree's tally, the output is the subtree's preorder statements, and the highest stack slot written is the starting depth plus the subtree's height minus one |
| Visitor.Metrics.VisitChildren | Main.c:61 | visiting the children in order leaves the stack as before, and gives the forest's counters and output with the current top of the stack as parent; the highest slot written is the starting depth plus the tallest child's height minus one |
| Driver.Analyze | Main.c:86-114 | after the traversal, cyclomatic = 1 + decision points, declarations = VarDecl nodes, maximum loop depth = loop nesting, loop depth and stack back at 0, one id per visited node, the DOT file is the header, the forest's statements and the closing line, and the highest stack slot written is the tallest tree's height minus one, below 1024 |
| Driver.AnalyzeChecked | Main.c:36 | refuses exactly the trees too deep for the 1024-slot stack; otherwise gives all the results of Analyze |
| Driver.DotFileNodes | Main.c:100-111 | the DOT file's node statements are the visited nodes in preorder, numbered 0, 1, 2, ...; so every id is distinct |
| Driver.DotFileEdges | Main.c:100-111 | the DOT file has as many edges as node statements minus the top-level children of the translation unit |
| Driver.DotFileWellFormed | Main.c:86-114 | no edge of the DOT file dangles: its child's node statement comes just before it, and its parent is declared earlier with a smaller id |
| Driver.ChainHeight | Main.c:36 | a chain of k nested nodes is k high, so visiting it needs k stack slots |
| Driver.ChainSize | Main.c:20 | a chain of k nested nodes gets k ids |
| Driver.DeepChainOverflows | Main.c:36 | for a translation unit whose one tree is a chain of 1025 nodes, the highest slot the walk writes is slot 1024, one past the stack's last slot |
| Driver.ChainAtCapacity | Main.c:36 | a chain of 1024 nodes fits: the walk writes slots up to 1023, the last one, numbers 1024 nodes, and ends with an empty stack |
| Driver.SiblingLoops | Main.c:40-57 | two loops side by side nest one deep and add two decision points |
| Driver.NestedLoops | Main.c:40-57 | a loop inside a loop nests two deep and adds two decision points |

## Left out

- libclang is not modelled: parsing, `clang_getCursorSpelling`, `clang_getCursorKind`, `clang_visitChildren` and string disposal. The tree datatype stands in for the cursors. Each node's kind and spelling are fields. Kinds the visitor does not test are all `Other`.
- File I/O on `ast.dot` and the `fprintf` formatting are left out. The output is a sequence of records, not text. A failing `fopen` is not modelled.
- A parse failure (`unit == NULL`) is not modelled: the model starts from a tree.
- The Graphviz and `xdg-open` shell commands, the wait for Enter, and the file deletion are left out. These are external processes.
- Argument checking, the usage message and the printed report lines are left out. They are I/O only. The report values are the fields of `Driver.Report`.
- Label escaping is not modelled because the code does none. A spelling containing `"` produces invalid DOT.
- Visitor.Metrics.Visit: does not model 32-bit `int` wrap-around of the counters and ids, because only a tree of about 2^31 nodes could reach it.
- Visitor.Metrics.Enter: requires room on the stack, because the code's unchecked push past slot 1023 is undefined behaviour in C. The Findings row below covers it.
- Driver.Analyze: requires the tree to fit the 1024-slot stack, for the same reason. Its contract shows the requirement is exact: the highest slot written is the tallest tree's height minus one.

## Findings

| source | as written | input that shows it | evidently intended | confidence | as-written member | corrected member |
|---|---|---|---|---|---|---|
| Main.c:36 | `nodeStack[stackTop++] = nodeId` pushes with no bound check into a 1024-slot array | a function whose body holds a single expression nested 1025 cursors deep, such as `return 1 + 1 + ... + 1;` with 1030 terms: each `+` nests the sum before it one cursor deeper, under the function, its body and the return | refuse, or grow the stack for, trees deeper than the stack | not executed | Driver.DeepChainOverflows | Driver.AnalyzeChecked |
