/**
 * The trees `ast.parse` builds for the fragments used as examples, and what
 * the swap does to them.  Only node-valued fields appear as children:
 * a `Name` has its `ctx` (`Load`), an `Attribute` its `value` and `ctx`, a
 * `List` its `elts` and `ctx`, a `keyword` its `value`; identifiers and
 * constant values are part of the tag.
 */
module RefactoringExamples {
  import opened Wrappers
  import opened SyntaxTree
  import opened AstWalk
  import opened RefactoringTools

  function Load(): Node { Other("Load", []) }
  function Name(id: string): Node { Other("Name " + id, [Load()]) }
  function Const(v: string): Node { Other("Constant " + v, []) }
  function Attribute(value: Node, attr: string): Node { Other("Attribute " + attr, [value, Load()]) }
  function ListOf(elts: seq<Node>): Node { Other("List", elts + [Load()]) }
  function Keyword(arg: string, value: Node): Node { Other("keyword " + arg, [value]) }
  /** A module holding one expression statement. */
  function Statement(e: Node): Node { Other("Module", [Other("Expr", [e])]) }

  /** The walk of a statement yields the module, then the `Expr`, and then reaches the expression. */
  lemma WalkOfStatement(x: Node)
    ensures FirstCall(Statement(x)) == FirstCallIn(WalkFrom([Entry([0, 0], x)]))
  {
    ThroughOnlyChild([], Statement(x));
    assert [] + [0] == [0];
    ThroughOnlyChild([0], Other("Expr", [x]));
    assert [0] + [0] == [0, 0];
  }

  /** A walk that starts at a node with a single child, not a `Call`, goes on at that child. */
  lemma ThroughOnlyChild(p: Path, n: Node)
    requires n.Other? && |n.children| == 1
    ensures FirstCallIn(WalkFrom([Entry(p, n)])) == FirstCallIn(WalkFrom([Entry(p + [0], n.children[0])]))
  {
    var q := [Entry(p, n)];
    FirstCallStep(q);
    assert Next(q) == [Entry(p + [0], n.children[0])];
  }

  /** In a one-statement module whose expression is a call, the walk stops at that call. */
  lemma FirstCallOfStatement(call: Node)
    requires call.Call?
    ensures FirstCall(Statement(call)) == Some(Entry([0, 0], call))
  {
    WalkOfStatement(call);
    FirstCallStep([Entry([0, 0], call)]);
  }

  /** A statement that is a single two-argument call gets its arguments exchanged. */
  lemma SwapInStatement(f: Node, x: Node, y: Node, kw: seq<Node>)
    ensures SwapTwoArgs(Statement(Call(f, [x, y], kw))) == Ok(Statement(Call(f, [y, x], kw)))
  {
    var call := Call(f, [x, y], kw);
    var swapped := Call(f, [y, x], kw);
    FirstCallOfStatement(call);
    assert SwapFirstTwoArgs(call) == swapped;
    ReplaceUnderStatement(call, swapped);
  }

  /** Rewriting the node at `[0, 0]` rewrites the statement's expression. */
  lemma ReplaceUnderStatement(e: Node, r: Node)
    ensures ReplaceAt(Statement(e), [0, 0], r) == Statement(r)
  {
    var p: Path := [0, 0];
    assert p[0] == 0 && p[1..] == [0] && p[1..][1..] == [];
    var stmt := Other("Expr", [e]);
    assert ReplaceAt(stmt, [0], r) == WithChild(stmt, 0, r) == Other("Expr", [r]);
    assert ReplaceAt(Statement(e), p, r) == WithChild(Statement(e), 0, Other("Expr", [r]));
  }

  /** `func(arg1, arg2)` becomes `func(arg2, arg1)`. */
  lemma SimpleCall()
    ensures SwapTwoArgs(Statement(Call(Name("func"), [Name("arg1"), Name("arg2")], [])))
         == Ok(Statement(Call(Name("func"), [Name("arg2"), Name("arg1")], [])))
  {
    SwapInStatement(Name("func"), Name("arg1"), Name("arg2"), []);
  }

  /**
   * `object1.object2.method(arg2(3, 4, 5), arg_as_func('qwe', 'asd'))`
   * becomes `object1.object2.method(arg_as_func('qwe', 'asd'), arg2(3, 4, 5))`:
   * the outer call is yielded first, and the inner calls keep their own
   * argument order.
   */
  lemma NestedCalls()
    ensures
      var callee := Attribute(Attribute(Name("object1"), "object2"), "method");
      var arg2 := Call(Name("arg2"), [Const("3"), Const("4"), Const("5")], []);
      var argAsFunc := Call(Name("arg_as_func"), [Const("'qwe'"), Const("'asd'")], []);
      SwapTwoArgs(Statement(Call(callee, [arg2, argAsFunc], [])))
        == Ok(Statement(Call(callee, [argAsFunc, arg2], [])))
  {
    var callee := Attribute(Attribute(Name("object1"), "object2"), "method");
    var arg2 := Call(Name("arg2"), [Const("3"), Const("4"), Const("5")], []);
    var argAsFunc := Call(Name("arg_as_func"), [Const("'qwe'"), Const("'asd'")], []);
    SwapInStatement(callee, arg2, argAsFunc, []);
  }

  /** A single positional argument fails, whatever keyword arguments the call has. */
  lemma OneArgumentFails(f: Node, x: Node, kw: seq<Node>)
    ensures SwapTwoArgs(Statement(Call(f, [x], kw))) == Err(IndexError)
  {
    FirstCallOfStatement(Call(f, [x], kw));
  }

  /** `func(arg1, key=1)` fails: `key=1` is a keyword, not a second positional argument. */
  lemma KeywordArgumentDoesNotCount()
    ensures SwapTwoArgs(Statement(Call(Name("func"), [Name("arg1")], [Keyword("key", Const("1"))]))) == Err(IndexError)
  {
    OneArgumentFails(Name("func"), Name("arg1"), [Keyword("key", Const("1"))]);
  }

  /** In `[[inner], call]` the walk reaches `call` (depth 3) before `inner` (depth 4). */
  lemma FirstCallInNestedList(inner: Node, call: Node)
    requires call.Call?
    ensures FirstCall(Statement(ListOf([ListOf([inner]), call]))) == Some(Entry([0, 0, 1], call))
  {
    var innerList := ListOf([inner]);
    var outerList := ListOf([innerList, call]);
    WalkOfStatement(outerList);
    var q2 := [Entry([0, 0], outerList)];
    FirstCallStep(q2);
    NestedListQueue(inner, call);
  }

  /** The third level of `[[inner], call]`: the inner list is passed over, then `call` is found. */
  lemma NestedListQueue(inner: Node, call: Node)
    requires call.Call?
    ensures FirstCallIn(WalkFrom(Next([Entry([0, 0], ListOf([ListOf([inner]), call]))]))) == Some(Entry([0, 0, 1], call))
  {
    var innerList := ListOf([inner]);
    var q3 := Next([Entry([0, 0], ListOf([innerList, call]))]);
    assert |q3| == 3 && q3[0] == Entry([0, 0] + [0], innerList) && q3[1] == Entry([0, 0] + [1], call);
    assert [0, 0] + [1] == [0, 0, 1];
    FirstCallStep(q3);
    var q4 := Next(q3);
    assert q4[0] == q3[1];
    FirstCallStep(q4);
  }

  /** Rewriting the node at `[0, 0, i]` rewrites element `i` of the statement's list. */
  lemma ReplaceInStatementList(elts: seq<Node>, i: nat, r: Node)
    requires i < |elts|
    ensures ReplaceAt(Statement(ListOf(elts)), [0, 0, i], r) == Statement(ListOf(elts[i := r]))
  {
    var list := ListOf(elts);
    var list' := ListOf(elts[i := r]);
    var p: Path := [0, 0, i];
    assert p[0] == 0 && p[1..] == [0, i] && p[1..][1..] == [i] && p[1..][1..][1..] == [];
    var expr := Other("Expr", [list]);
    assert Children(list)[i] == elts[i];
    assert (elts + [Load()])[i := r] == elts[i := r] + [Load()];
    assert ReplaceAt(list, [i], r) == WithChild(list, i, r) == list';
    assert ReplaceAt(expr, [0, i], r) == WithChild(expr, 0, list') == Other("Expr", [list']);
    assert ReplaceAt(Statement(list), p, r) == WithChild(Statement(list), 0, Other("Expr", [list']));
  }

  /**
   * In `[[inner], g(a, b)]` the walk yields `g(a, b)` before `inner`, so
   * `g`'s arguments are exchanged and `inner` is left alone even when it is
   * a call; a depth-first pre-order walk would have picked `inner` instead.
   */
  lemma BreadthFirstChoice(inner: Node, g: Node, a: Node, b: Node, kw: seq<Node>)
    ensures SwapTwoArgs(Statement(ListOf([ListOf([inner]), Call(g, [a, b], kw)])))
         == Ok(Statement(ListOf([ListOf([inner]), Call(g, [b, a], kw)])))
  {
    var call := Call(g, [a, b], kw);
    FirstCallInNestedList(inner, call);
    assert SwapFirstTwoArgs(call) == Call(g, [b, a], kw);
    ReplaceInStatementList([ListOf([inner]), call], 1, Call(g, [b, a], kw));
    assert [ListOf([inner]), call][1 := Call(g, [b, a], kw)] == [ListOf([inner]), Call(g, [b, a], kw)];
  }

  /**
   * In `[f(a, b), g(c, d)]` both calls are at the same depth, and the walk
   * yields them left to right: `f`'s arguments are exchanged, `g`'s are not.
   */
  lemma LeftmostAtSameDepth(f: Node, a: Node, b: Node, kf: seq<Node>, g: Node, c: Node, d: Node, kg: seq<Node>)
    ensures SwapTwoArgs(Statement(ListOf([Call(f, [a, b], kf), Call(g, [c, d], kg)])))
         == Ok(Statement(ListOf([Call(f, [b, a], kf), Call(g, [c, d], kg)])))
  {
    var first, second := Call(f, [a, b], kf), Call(g, [c, d], kg);
    var list := ListOf([first, second]);
    WalkOfStatement(list);
    var q2 := [Entry([0, 0], list)];
    FirstCallStep(q2);
    var q3 := Next(q2);
    assert q3[0] == Entry([0, 0] + [0], first);
    assert [0, 0] + [0] == [0, 0, 0];
    FirstCallStep(q3);
    assert FirstCall(Statement(list)) == Some(Entry([0, 0, 0], first));
    var swapped := Call(f, [b, a], kf);
    assert SwapFirstTwoArgs(first) == swapped;
    ReplaceInStatementList([first, second], 0, swapped);
    assert [first, second][0 := swapped] == [swapped, second];
  }
}
