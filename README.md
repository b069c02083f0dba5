# Swapping the first two arguments of a call, on the syntax tree

`swap_two_args_in_function_call` (in `refactoring_tools.py`) parses a code
fragment and walks the tree with `ast.walk`. It stops at the first
`ast.Call` node it yields, exchanges that call's `args[0]` and `args[1]` in
place, and unparses the tree. This project models that tree-level
transformation in Dafny and proves what it does.

- `syntax_tree.dfy` (module `SyntaxTree`) holds the tree. A node is either
  `Call(func, args, keywords)` or `Other(tag, children)`. Children come in
  `ast.iter_child_nodes` order: `func`, then `args`, then `keywords`. A
  position is a path of child indices. `ReplaceAt` is the value-level
  picture of changing one node of the tree in place.
- `ast_walk.dfy` (module `AstWalk`) models `ast.walk`. It pops the front of a
  queue, appends that node's children at the back and yields the node, so
  the order is breadth-first. `Walk` is that order and `FirstCall` is the
  first `Call` in it. `FindFirstCall` is the loop with its `break`, run on an
  explicit queue.
- `refactoring_tools.dfy` (module `RefactoringTools`) holds the operation.
  `SwapTwoArgs` specifies it, `SwapTwoArgsInFunctionCall` is the method, and
  the lemmas cover involution, locality, the error case and the no-call case.
- `refactoring_examples.dfy` (module `RefactoringExamples`) holds the two
  test cases of `test_refactoring_tools.py`, stated on the trees `ast.parse`
  builds for them. It also holds a case where breadth-first and depth-first
  order pick different calls.

`ast.walk` is breadth-first, so the call it reaches first is a shallowest
`Call` of the tree and, among the calls at that depth, the leftmost one
(`AstWalk.WalkOrder`, `AstWalk.FirstCallShallowest`). A depth-first
pre-order walk would pick a different call in some trees;
`RefactoringExamples.BreadthFirstChoice` is one. When no node is a `Call`,
the loop ends without a `break` and the tree comes back unchanged
(`RefactoringTools.SwapTwoArgsNoCall`).

The Python swap statement evaluates its right-hand side first. So when the
call has fewer than two positional arguments, `node.args[1]` raises
`IndexError` before anything is assigned. The model returns
`Err(IndexError)` (the one value of `RefactoringTools.SwapError`) and the
tree is not touched.

## Model

| member | source | states |
|---|---|---|
| `SyntaxTree.Children` | refactoring_tools.py:6 | the children `ast.walk` appends for a node, in `iter_child_nodes` order: a call's `func`, then all of `args`, then all of `keywords`; any other node's children as they are |
| `SyntaxTree.WithChild` | refactoring_tools.py:8 | the node with one child replaced: its child list is the old one with that entry updated, and its kind, tag and argument and keyword counts are kept |
| `SyntaxTree.ReplaceAt` | refactoring_tools.py:8 | the tree after one node is overwritten in place: a position that does not exist leaves the tree as it is, and the root keeps its kind and number of children |
| `SyntaxTree.ReplaceAtTarget` | refactoring_tools.py:8 | after the node at a position is rewritten, the tree holds the new node at that position |
| `SyntaxTree.ReplaceAtElsewhere` | refactoring_tools.py:8 | rewriting one node leaves every position outside its subtree and off the path to it as it was |
| `SyntaxTree.ReplaceAtAncestor` | refactoring_tools.py:8 | every ancestor of the rewritten node keeps its kind, its tag or argument counts, and all children except the one on the path |
| `SyntaxTree.ReplaceAtSelf` | refactoring_tools.py:8 | writing back the node already at a position leaves the tree unchanged |
| `SyntaxTree.ReplaceAtTwice` | refactoring_tools.py:8 | a second rewrite at the same position overrides the first |
| `SyntaxTree.SizeOfChildren` | refactoring_tools.py:6 | a node's subtree is the node plus the subtrees of the children the walk appends |
| `SyntaxTree.AtAppend` | refactoring_tools.py:6 | going to position `q + r` is going to `q`, then to `r` inside it |
| `AstWalk.ChildEntries` | refactoring_tools.py:6 | the entries queued for a popped node: one per child, in child order, each at the parent's position extended by the child's index |
| `AstWalk.Next` | refactoring_tools.py:6 | one step of the walk's queue: the rest of the queue in order, followed by the popped node's child entries |
| `AstWalk.NextShrinks` | refactoring_tools.py:6 | each step of the walk yields one node, so the nodes left to yield drop by exactly one |
| `AstWalk.WalkFrom` | refactoring_tools.py:6 | the walk yields exactly as many nodes as the queued subtrees contain |
| `AstWalk.Walk` | refactoring_tools.py:6 | `ast.walk(tree)` yields one entry per node of the tree, starting with the root at the empty position |
| `AstWalk.FirstCallIndex` | refactoring_tools.py:6-9 | the loop stops at a `Call` and no earlier yielded node is a `Call`; it finds nothing only when no yielded node is a `Call` |
| `AstWalk.FirstCallIn` | refactoring_tools.py:6-9 | the entry the loop breaks at is one of the yielded entries and is a `Call`; there is none if and only if no yielded node is a `Call` |
| `AstWalk.FirstCall` | refactoring_tools.py:6-9 | the call the loop over `ast.walk(tree)` breaks at is a `Call` sitting at its position in the tree |
| `AstWalk.FindFirstCall` | refactoring_tools.py:6-9 | the queue-driven loop with its `break` returns exactly the first `Call` in walk order, sitting at its position in the tree |
| `AstWalk.FirstCallStep` | refactoring_tools.py:6-9 | one loop turn either stops at the popped `Call` or continues with the rest of the walk |
| `AstWalk.WalkSound` | refactoring_tools.py:6 | every node the walk yields is the subtree at the position it is paired with |
| `AstWalk.WalkComplete` | refactoring_tools.py:6 | every position of the tree is yielded by the walk |
| `AstWalk.WalkOrder` | refactoring_tools.py:6 | positions are yielded in strictly increasing breadth-first order (shallower first, left to right within a depth), so no position is yielded twice |
| `AstWalk.FirstCallShallowest` | refactoring_tools.py:6-9 | the call the loop stops at is no deeper than any `Call` of the tree, and to the left of every other `Call` at its depth |
| `AstWalk.LexLessChild` | refactoring_tools.py:6 | a position whose parent lies left of `p` at the same depth lies left of every child of `p`, so children are queued in left-to-right order |
| `AstWalk.NextOrdered` | refactoring_tools.py:6 | one step of the walk keeps its queue in increasing breadth-first order |
| `AstWalk.ParentVisitedEarlier` | refactoring_tools.py:6 | each yielded node was either queued at the start or has its parent yielded earlier |
| `AstWalk.AncestorVisitedEarlier` | refactoring_tools.py:6 | every ancestor of a yielded node is yielded before it |
| `AstWalk.FirstCallFacts` | refactoring_tools.py:6-9 | the call found is a `Call` at its position, and none of its ancestors is a `Call` |
| `AstWalk.FirstCallNone` | refactoring_tools.py:6-9 | the loop finds no call if and only if the tree contains no `Call` node at any position |
| `AstWalk.ReplaceCallKeepsFirstCall` | refactoring_tools.py:6-9 | replacing a `Call` by another `Call` leaves the loop stopping at the same position |
| `RefactoringTools.SwapFirstTwoArgs` | refactoring_tools.py:8 | the rewritten call has `args[0]` and `args[1]` exchanged, the rest of `args`, `func` and `keywords` unchanged, and the same length and multiset of arguments |
| `RefactoringTools.SwapTwoArgs` | refactoring_tools.py:4-10 | the whole operation on the parsed tree: with no `Call` the tree comes back unchanged; on success the first call has at least two positional arguments and the result holds it, with those two exchanged, at the same position; otherwise `Err(IndexError)` |
| `RefactoringTools.SwapTwoArgsInFunctionCall` | refactoring_tools.py:4-10 | the walk-then-swap method produces exactly the result `SwapTwoArgs` specifies, including the `IndexError` case |
| `RefactoringTools.SwapFirstTwoArgsInvolution` | refactoring_tools.py:8 | exchanging the first two arguments twice gives the call back |
| `RefactoringTools.SwapTwoArgsFails` | refactoring_tools.py:8 | the operation fails if and only if the first call found has fewer than two positional arguments; keywords do not count |
| `RefactoringTools.SwapTwoArgsNoCall` | refactoring_tools.py:6-10 | a tree with no `Call` node comes back unchanged |
| `RefactoringTools.SwapTwoArgsLocal` | refactoring_tools.py:6-9 | only the first call changes: it gets its first two arguments exchanged, positions outside it stay, its ancestors are non-call nodes that keep all other children |
| `RefactoringTools.SwapTwoArgsPermutesArgs` | refactoring_tools.py:8 | the rewritten call's argument list has the old length and the same multiset of arguments |
| `RefactoringTools.SwapTwoArgsInvolution` | refactoring_tools.py:6-9 | applying the operation to its own result gives the original tree back |
| `RefactoringExamples.WalkOfStatement` | refactoring_tools.py:6-9 | in a one-statement module the loop passes over the module and the `Expr` node and goes on at the expression |
| `RefactoringExamples.FirstCallOfStatement` | refactoring_tools.py:6-9 | in a one-statement module whose expression is a call, the loop stops at that call |
| `RefactoringExamples.SwapInStatement` | refactoring_tools.py:4-10 | a statement `f(x, y, **kw)` becomes `f(y, x, **kw)` |
| `RefactoringExamples.SimpleCall` | test_refactoring_tools.py:6-7 | `func(arg1, arg2)` becomes `func(arg2, arg1)` |
| `RefactoringExamples.NestedCalls` | test_refactoring_tools.py:9-12 | the outer call's arguments are exchanged; `arg2(3, 4, 5)` and `arg_as_func('qwe', 'asd')` keep their own order |
| `RefactoringExamples.OneArgumentFails` | refactoring_tools.py:8 | a call with one positional argument fails with `IndexError`, whatever its keywords |
| `RefactoringExamples.KeywordArgumentDoesNotCount` | refactoring_tools.py:8 | `func(arg1, key=1)` fails: the keyword is not a second positional argument |
| `RefactoringExamples.FirstCallInNestedList` | refactoring_tools.py:6 | in `[[inner], call]` the walk reaches `call` before `inner` |
| `RefactoringExamples.BreadthFirstChoice` | refactoring_tools.py:6-9 | in `[[inner], g(a, b)]` it is `g` whose arguments are exchanged, not the deeper `inner` |
| `RefactoringExamples.LeftmostAtSameDepth` | refactoring_tools.py:6-9 | in `[f(a, b), g(c, d)]` it is `f`, the left one of two calls at one depth, whose arguments are exchanged |

## Left out

- `ast.parse` and `ast.unparse` (refactoring_tools.py:5, 10) are Python's own parser and printer. The model takes the parsed tree as input and returns the tree. Text, syntax errors and formatting are not modelled.
- Python's node classes are collapsed into `Call` and `Other`. Non-node fields such as identifiers, constants and `ctx` classes are folded into an `Other` node's tag or are `Other` children. The example trees are written out by hand, following the shape `ast.parse` gives.
- The in-place update of the found node is modelled on values. `ReplaceAt` rebuilds the path from the root to the changed node. Object identity and aliasing of node objects are not modelled.
- `swap_two_args_in_file` (refactoring_tools.py:13-17) reads a file, applies the swap to each line and joins the results with newlines. It is file I/O around the core.
- The `__main__` block (refactoring_tools.py:20-21) prints to standard output.
- `refactoring_tools.py` holds no other transformation; dictionary-key and hyphen-word rewrites are not part of this model.
