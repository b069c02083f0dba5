/**
 * A minimal Python syntax tree, as far as `ast.walk` and the argument swap
 * can see it.  A `Call` node keeps its three node-valued fields in the order
 * `ast.iter_child_nodes` yields them: `func`, then `args`, then `keywords`.
 * Every other node kind is an `Other` node whose `tag` stands for its class
 * and its non-node fields (identifiers, constants, ...).
 */
module SyntaxTree {
  import opened Wrappers

  datatype Node =
    | Call(func: Node, args: seq<Node>, keywords: seq<Node>)
    | Other(tag: string, children: seq<Node>)

  /** A node's position: the child indices followed from the root. */
  type Path = seq<nat>

  /** The child nodes in `ast.iter_child_nodes` order. */
  function Children(n: Node): (cs: seq<Node>)
    ensures n.Call? ==> |cs| == 1 + |n.args| + |n.keywords|
    ensures n.Call? ==> cs[0] == n.func && cs[1..1 + |n.args|] == n.args && cs[1 + |n.args|..] == n.keywords
    ensures n.Other? ==> cs == n.children
  {
    match n
    case Call(f, a, k) => [f] + a + k
    case Other(_, cs) => cs
  }

  /** Number of nodes in a tree. */
  function Size(n: Node): nat
    decreases n
  {
    match n
    case Call(f, a, k) => 1 + Size(f) + SizeAll(a) + SizeAll(k)
    case Other(_, cs) => 1 + SizeAll(cs)
  }

  /** Number of nodes in a forest. */
  function SizeAll(ns: seq<Node>): nat
    decreases ns
  {
    if ns == [] then 0 else Size(ns[0]) + SizeAll(ns[1..])
  }

  lemma {:induction false} SizeAllAppend(xs: seq<Node>, ys: seq<Node>)
    ensures SizeAll(xs + ys) == SizeAll(xs) + SizeAll(ys)
    decreases |xs|
  {
    if xs == [] {
      assert xs + ys == ys;
    } else {
      assert (xs + ys)[0] == xs[0] && (xs + ys)[1..] == xs[1..] + ys;
      SizeAllAppend(xs[1..], ys);
    }
  }

  /** A node counts itself plus everything below its children. */
  lemma SizeOfChildren(n: Node)
    ensures Size(n) == 1 + SizeAll(Children(n))
  {
    match n
    case Call(f, a, k) =>
      SizeAllAppend([f], a);
      SizeAllAppend([f] + a, k);
    case Other(_, _) =>
  }

  /** The subtree found by following `p` from `t`, if `p` is a position of `t`. */
  function At(t: Node, p: Path): Option<Node>
    decreases |p|
  {
    if p == [] then Some(t)
    else if p[0] < |Children(t)| then At(Children(t)[p[0]], p[1..])
    else None
  }

  /** `q` is an ancestor position of `p`, or `p` itself. */
  predicate IsPrefix(q: Path, p: Path) {
    |q| <= |p| && p[..|q|] == q
  }

  /** Neither position lies inside the subtree of the other. */
  predicate Disjoint(q: Path, p: Path) {
    !IsPrefix(q, p) && !IsPrefix(p, q)
  }

  /** Following `q` and then `r` is following `q + r`. */
  lemma {:induction false} AtAppend(t: Node, q: Path, r: Path)
    ensures At(t, q + r) == if At(t, q).Some? then At(At(t, q).value, r) else None
    decreases |q|
  {
    if q == [] {
      assert q + r == r;
    } else {
      assert (q + r)[0] == q[0] && (q + r)[1..] == q[1..] + r;
      if q[0] < |Children(t)| {
        AtAppend(Children(t)[q[0]], q[1..], r);
      }
    }
  }

  /** `n` with its `i`-th child (in `Children` order) replaced by `c`. */
  function WithChild(n: Node, i: nat, c: Node): (r: Node)
    requires i < |Children(n)|
    ensures Children(r) == Children(n)[i := c]
    ensures r.Call? == n.Call?
    ensures r.Call? ==> |r.args| == |n.args| && |r.keywords| == |n.keywords|
    ensures r.Other? ==> r.tag == n.tag
  {
    match n
    case Call(f, a, k) =>
      if i == 0 then Call(c, a, k)
      else if i <= |a| then Call(f, a[i - 1 := c], k)
      else Call(f, a, k[i - 1 - |a| := c])
    case Other(tag, cs) => Other(tag, cs[i := c])
  }

  /**
   * `t` with the subtree at `p` replaced by `r`; `t` itself when `p` is not a
   * position of `t`.  This is the value-level picture of mutating one node of
   * a tree in place: every node on the way down is rebuilt around its new
   * child, and nothing else is touched.
   */
  function ReplaceAt(t: Node, p: Path, r: Node): (t': Node)
    ensures At(t, p).None? ==> t' == t
    ensures p != [] ==> t'.Call? == t.Call? && |Children(t')| == |Children(t)|
    decreases |p|
  {
    if p == [] then r
    else if p[0] < |Children(t)| then
      var c := Children(t)[p[0]];
      WithChildSelf(t, p[0]);
      WithChild(t, p[0], ReplaceAt(c, p[1..], r))
    else t
  }

  /** Putting back the child that is already there gives the node back. */
  lemma WithChildSelf(n: Node, i: nat)
    requires i < |Children(n)|
    ensures WithChild(n, i, Children(n)[i]) == n
  {
    var n' := WithChild(n, i, Children(n)[i]);
    assert Children(n') == Children(n);
    match n
    case Call(f, a, k) =>
      assert n'.args == Children(n')[1..1 + |a|];
      assert n'.keywords == Children(n')[1 + |a|..];
    case Other(_, _) =>
  }

  /** `m` and `m'` are the same kind of node with the same fields, except possibly child `i`. */
  predicate DiffersOnlyInChild(m: Node, m': Node, i: nat) {
    && m.Call? == m'.Call?
    && (m.Call? ==> |m'.args| == |m.args| && |m'.keywords| == |m.keywords|)
    && (m.Other? ==> m'.tag == m.tag)
    && |Children(m')| == |Children(m)|
    && forall j :: 0 <= j < |Children(m)| && j != i ==> Children(m')[j] == Children(m)[j]
  }

  /** After the replacement, the new subtree sits at `p`. */
  lemma {:induction false} ReplaceAtTarget(t: Node, p: Path, r: Node)
    requires At(t, p).Some?
    ensures At(ReplaceAt(t, p, r), p) == Some(r)
    decreases |p|
  {
    if p != [] {
      ReplaceAtTarget(Children(t)[p[0]], p[1..], r);
    }
  }

  /** Positions outside the replaced subtree and off the path to it see the old subtree. */
  lemma {:induction false} ReplaceAtElsewhere(t: Node, p: Path, r: Node, q: Path)
    requires At(t, p).Some?
    requires Disjoint(q, p)
    ensures At(ReplaceAt(t, p, r), q) == At(t, q)
    decreases |p|
  {
    assert p != [] && q != [];
    var i := p[0];
    if q[0] == i {
      assert Disjoint(q[1..], p[1..]);
      ReplaceAtElsewhere(Children(t)[i], p[1..], r, q[1..]);
    }
  }

  /** Every ancestor of `p` keeps its kind, its fields and all other children. */
  lemma {:induction false} ReplaceAtAncestor(t: Node, p: Path, r: Node, q: Path)
    requires At(t, p).Some?
    requires IsPrefix(q, p) && q != p
    ensures At(t, q).Some? && At(ReplaceAt(t, p, r), q).Some?
    ensures DiffersOnlyInChild(At(t, q).value, At(ReplaceAt(t, p, r), q).value, p[|q|])
    decreases |p|
  {
    if q != [] {
      assert q[1..] == p[1..][..|q| - 1];
      ReplaceAtAncestor(Children(t)[p[0]], p[1..], r, q[1..]);
    }
  }

  /** Putting back the subtree that is already there changes nothing. */
  lemma {:induction false} ReplaceAtSelf(t: Node, p: Path)
    requires At(t, p).Some?
    ensures ReplaceAt(t, p, At(t, p).value) == t
    decreases |p|
  {
    if p != [] {
      ReplaceAtSelf(Children(t)[p[0]], p[1..]);
      WithChildSelf(t, p[0]);
    }
  }

  /** A second replacement at the same position overrides the first. */
  lemma {:induction false} ReplaceAtTwice(t: Node, p: Path, r1: Node, r2: Node)
    requires At(t, p).Some?
    ensures ReplaceAt(ReplaceAt(t, p, r1), p, r2) == ReplaceAt(t, p, r2)
    decreases |p|
  {
    if p != [] {
      var i := p[0];
      var c := Children(t)[i];
      ReplaceAtTwice(c, p[1..], r1, r2);
      WithChildTwice(t, i, ReplaceAt(c, p[1..], r1), ReplaceAt(c, p[1..], r2));
    }
  }

  lemma WithChildTwice(n: Node, i: nat, c1: Node, c2: Node)
    requires i < |Children(n)|
    ensures WithChild(WithChild(n, i, c1), i, c2) == WithChild(n, i, c2)
  {
  }
}
