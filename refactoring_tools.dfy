/**
 * `swap_two_args_in_function_call` on the parsed tree: find the first
 * `ast.Call` that `ast.walk` yields, exchange its first two positional
 * arguments in place, and hand the tree back for unparsing.
 */
module RefactoringTools {
  import opened Wrappers
  import opened SyntaxTree
  import opened AstWalk

  /**
   * The exception the swap statement raises when the call it reads has fewer
   * than two positional arguments (`node.args[1]` is out of range).
   */
  datatype SwapError = IndexError

  /** The call with `args[0]` and `args[1]` exchanged; everything else kept. */
  function SwapFirstTwoArgs(call: Node): (r: Node)
    requires call.Call? && |call.args| >= 2
    ensures r.Call? && r.func == call.func && r.keywords == call.keywords
    ensures |r.args| == |call.args| && multiset(r.args) == multiset(call.args)
    ensures r.args[0] == call.args[1] && r.args[1] == call.args[0]
    ensures forall i :: 2 <= i < |r.args| ==> r.args[i] == call.args[i]
  {
    var a := call.args;
    assert a == [a[0], a[1]] + a[2..];
    Call(call.func, [a[1], a[0]] + a[2..], call.keywords)
  }

  /** What `swap_two_args_in_function_call` does to the tree it parsed. */
  function SwapTwoArgs(tree: Node): (r: Result<Node, SwapError>)
    ensures FirstCall(tree).None? ==> r == Ok(tree)
    ensures FirstCall(tree).Some? && r.Ok? ==>
      var p, call := FirstCall(tree).value.path, FirstCall(tree).value.node;
      |call.args| >= 2 && At(r.value, p) == Some(Call(call.func, [call.args[1], call.args[0]] + call.args[2..], call.keywords))
  {
    match FirstCall(tree)
    case None => Ok(tree)
    case Some(e) =>
      FirstCallFacts(tree);
      if |e.node.args| < 2 then Err(IndexError)
      else
        ReplaceAtTarget(tree, e.path, SwapFirstTwoArgs(e.node));
        Ok(ReplaceAt(tree, e.path, SwapFirstTwoArgs(e.node)))
  }

  /**
   * The loop over `ast.walk(tree)` with its `break`, then the swap of
   * `args[0]` and `args[1]` in the node it stopped at.
   */
  method SwapTwoArgsInFunctionCall(tree: Node) returns (result: Result<Node, SwapError>)
    ensures result == SwapTwoArgs(tree)
  {
    var found := FindFirstCall(tree);
    match found {
      case None =>
        result := Ok(tree);
      case Some(e) =>
        var call := e.node;
        if |call.args| < 2 {
          result := Err(IndexError);
        } else {
          result := Ok(ReplaceAt(tree, e.path, SwapFirstTwoArgs(call)));
        }
    }
  }

  // ---------------------------------------------------------------------------
  // Properties

  /** Exchanging the first two arguments twice gives the call back. */
  lemma SwapFirstTwoArgsInvolution(call: Node)
    requires call.Call? && |call.args| >= 2
    ensures SwapFirstTwoArgs(SwapFirstTwoArgs(call)) == call
  {
    var a := call.args;
    var b := SwapFirstTwoArgs(SwapFirstTwoArgs(call)).args;
    assert b == a;
  }

  /**
   * The operation fails exactly when the first call the walk yields has fewer
   * than two positional arguments; keyword arguments are not counted.
   */
  lemma SwapTwoArgsFails(tree: Node)
    ensures SwapTwoArgs(tree).Err? <==>
      exists p, f, a, k :: FirstCall(tree) == Some(Entry(p, Call(f, a, k))) && |a| < 2
  {
    FirstCallFacts(tree);
    if FirstCall(tree).Some? {
      var e := FirstCall(tree).value;
      assert FirstCall(tree) == Some(Entry(e.path, Call(e.node.func, e.node.args, e.node.keywords)));
    }
  }

  /** A tree without any `Call` node comes back unchanged. */
  lemma SwapTwoArgsNoCall(tree: Node)
    requires forall q :: At(tree, q).Some? ==> !At(tree, q).value.Call?
    ensures SwapTwoArgs(tree) == Ok(tree)
  {
    FirstCallNone(tree);
  }

  /**
   * Only the first call is rewritten.  At its position sits the same call
   * with `args[0]` and `args[1]` exchanged; every position outside its
   * subtree and off the path to it is untouched; and every ancestor of it is
   * a non-call node that keeps its kind and all its other children.  In
   * particular every other `Call` node, nested or later, keeps its arguments.
   */
  lemma SwapTwoArgsLocal(tree: Node, tree': Node)
    requires SwapTwoArgs(tree) == Ok(tree')
    ensures FirstCall(tree).None? ==> tree' == tree
    ensures FirstCall(tree).Some? ==>
      var p, call := FirstCall(tree).value.path, FirstCall(tree).value.node;
      && At(tree, p) == Some(call)
      && call.Call? && |call.args| >= 2
      && At(tree', p) == Some(Call(call.func, [call.args[1], call.args[0]] + call.args[2..], call.keywords))
      && (forall q :: Disjoint(q, p) ==> At(tree', q) == At(tree, q))
      && (forall q :: IsPrefix(q, p) && q != p ==>
            && At(tree, q).Some? && At(tree, q).value.Other?
            && At(tree', q).Some?
            && DiffersOnlyInChild(At(tree, q).value, At(tree', q).value, p[|q|]))
  {
    FirstCallFacts(tree);
    if FirstCall(tree).Some? {
      var p, call := FirstCall(tree).value.path, FirstCall(tree).value.node;
      var swapped := SwapFirstTwoArgs(call);
      assert tree' == ReplaceAt(tree, p, swapped);
      ReplaceAtTarget(tree, p, swapped);
      forall q | Disjoint(q, p)
        ensures At(tree', q) == At(tree, q)
      {
        ReplaceAtElsewhere(tree, p, swapped, q);
      }
      forall q | IsPrefix(q, p) && q != p
        ensures At(tree', q).Some? && DiffersOnlyInChild(At(tree, q).value, At(tree', q).value, p[|q|])
      {
        ReplaceAtAncestor(tree, p, swapped, q);
      }
    }
  }

  /** The rewritten argument list is a permutation of the original one, of the same length. */
  lemma SwapTwoArgsPermutesArgs(tree: Node, tree': Node)
    requires SwapTwoArgs(tree) == Ok(tree') && FirstCall(tree).Some?
    ensures
      var p, call := FirstCall(tree).value.path, FirstCall(tree).value.node;
      && At(tree', p).Some? && At(tree', p).value.Call?
      && |At(tree', p).value.args| == |call.args|
      && multiset(At(tree', p).value.args) == multiset(call.args)
  {
    FirstCallFacts(tree);
    var p, call := FirstCall(tree).value.path, FirstCall(tree).value.node;
    ReplaceAtTarget(tree, p, SwapFirstTwoArgs(call));
  }

  /**
   * Swapping twice gives the original tree back: the swapped call is still
   * the first call the walk yields, and it still has two arguments.
   */
  lemma SwapTwoArgsInvolution(tree: Node, tree': Node)
    requires SwapTwoArgs(tree) == Ok(tree')
    ensures SwapTwoArgs(tree') == Ok(tree)
  {
    FirstCallFacts(tree);
    if FirstCall(tree).Some? {
      var p, call := FirstCall(tree).value.path, FirstCall(tree).value.node;
      var swapped := SwapFirstTwoArgs(call);
      assert tree' == ReplaceAt(tree, p, swapped);
      ReplaceCallKeepsFirstCall(tree, p, swapped);
      FirstCallFacts(tree');
      ReplaceAtTarget(tree, p, swapped);
      assert FirstCall(tree').value == Entry(p, swapped);
      SwapFirstTwoArgsInvolution(call);
      ReplaceAtTwice(tree, p, swapped, call);
      ReplaceAtSelf(tree, p);
    }
  }
}
