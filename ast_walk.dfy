/**
 * `ast.walk` and the search for the first `ast.Call` it yields.
 *
 * `ast.walk` keeps a double-ended queue that starts with the root; it pops a
 * node from the front, appends that node's children (in
 * `ast.iter_child_nodes` order) at the back, and yields the popped node.  The
 * order it yields nodes in is therefore breadth-first.  `Walk` is that order
 * as a sequence, each node paired with its position so that the node found
 * can later be rewritten in place.
 */
module AstWalk {
  import opened Wrappers
  import opened SyntaxTree

  /** A node yielded by the walk, with its position in the walked tree. */
  datatype Entry = Entry(path: Path, node: Node)

  /** The entries `ast.walk` appends to its queue when it pops `e`. */
  function ChildEntries(e: Entry): (cs: seq<Entry>)
    ensures |cs| == |Children(e.node)|
    ensures forall i :: 0 <= i < |cs| ==>
      cs[i].path == e.path + [i] && cs[i].node == Children(e.node)[i]
  {
    seq(|Children(e.node)|, i requires 0 <= i < |Children(e.node)| => Entry(e.path + [i], Children(e.node)[i]))
  }

  function Nodes(queue: seq<Entry>): seq<Node> {
    seq(|queue|, i requires 0 <= i < |queue| => queue[i].node)
  }

  /** How many nodes the walk still has to yield from this queue. */
  function QueueSize(queue: seq<Entry>): nat {
    SizeAll(Nodes(queue))
  }

  /** One step of `ast.walk`: pop the front, extend with its children. */
  function Next(queue: seq<Entry>): (next: seq<Entry>)
    requires queue != []
    ensures |next| == |queue| - 1 + |Children(queue[0].node)|
    ensures forall i :: 0 <= i < |queue| - 1 ==> next[i] == queue[i + 1]
    ensures forall i :: |queue| - 1 <= i < |next| ==> next[i] == ChildEntries(queue[0])[i - (|queue| - 1)]
  {
    queue[1..] + ChildEntries(queue[0])
  }

  /** Each step yields exactly one node, so the work left shrinks by one. */
  lemma NextShrinks(queue: seq<Entry>)
    requires queue != []
    ensures QueueSize(Next(queue)) == QueueSize(queue) - 1
  {
    var ns := Nodes(queue);
    assert Nodes(Next(queue)) == ns[1..] + Children(queue[0].node);
    SizeAllAppend(ns[1..], Children(queue[0].node));
    SizeOfChildren(queue[0].node);
  }

  /** Everything the walk yields from this queue on, in order. */
  function WalkFrom(queue: seq<Entry>): (visits: seq<Entry>)
    ensures |visits| == QueueSize(queue)
    decreases QueueSize(queue)
  {
    if queue == [] then []
    else
      NextShrinks(queue);
      [queue[0]] + WalkFrom(Next(queue))
  }

  /** The order in which `ast.walk(tree)` yields the nodes of `tree`. */
  function Walk(tree: Node): (visits: seq<Entry>)
    ensures |visits| == Size(tree)
    ensures visits[0] == Entry([], tree)
  {
    var root := [Entry([], tree)];
    assert Nodes(root) == [tree];
    assert SizeAll([tree]) == Size(tree) + SizeAll([]);
    WalkFrom(root)
  }

  /** The index of the first `Call` among `visits`: what a `for` loop with `break` finds. */
  function FirstCallIndex(visits: seq<Entry>): (r: Option<nat>)
    ensures r.Some? ==> r.value < |visits| && visits[r.value].node.Call?
    ensures r.Some? ==> forall j :: 0 <= j < r.value ==> !visits[j].node.Call?
    ensures r.None? ==> forall j :: 0 <= j < |visits| ==> !visits[j].node.Call?
  {
    if visits == [] then None
    else if visits[0].node.Call? then Some(0)
    else
      match FirstCallIndex(visits[1..])
      case None => None
      case Some(k) => Some(k + 1)
  }

  function FirstCallIn(visits: seq<Entry>): (r: Option<Entry>)
    ensures r.Some? ==> r.value in visits && r.value.node.Call?
    ensures r.None? <==> forall j :: 0 <= j < |visits| ==> !visits[j].node.Call?
  {
    match FirstCallIndex(visits)
    case None => None
    case Some(k) => Some(visits[k])
  }

  /** The first `ast.Call` node that `ast.walk(tree)` yields, with its position. */
  function FirstCall(tree: Node): (r: Option<Entry>)
    ensures r.Some? ==> r.value.node.Call? && At(tree, r.value.path) == Some(r.value.node)
  {
    WalkSound(tree);
    FirstCallIn(Walk(tree))
  }

  /**
   * The loop of `swap_two_args_in_function_call` up to its `break`: walk the
   * tree with an explicit queue, as `ast.walk` does, and stop at the first
   * `Call`.
   */
  method FindFirstCall(tree: Node) returns (found: Option<Entry>)
    ensures found == FirstCall(tree)
    ensures found.Some? ==> found.value.node.Call? && At(tree, found.value.path) == Some(found.value.node)
  {
    WalkSound(tree);
    var todo := [Entry([], tree)];
    while todo != []
      invariant FirstCallIn(WalkFrom(todo)) == FirstCall(tree)
      decreases QueueSize(todo)
    {
      var node := todo[0];
      FirstCallStep(todo);
      NextShrinks(todo);
      todo := Next(todo);
      if node.node.Call? {
        found := Some(node);
        return;
      }
    }
    found := None;
  }

  /** One turn of the loop: stop at a `Call`, otherwise go on with the rest of the walk. */
  lemma FirstCallStep(queue: seq<Entry>)
    requires queue != []
    ensures FirstCallIn(WalkFrom(queue)) ==
      if queue[0].node.Call? then Some(queue[0]) else FirstCallIn(WalkFrom(Next(queue)))
  {
    var rest := WalkFrom(Next(queue));
    assert WalkFrom(queue) == [queue[0]] + rest;
    assert ([queue[0]] + rest)[1..] == rest;
  }

  // ---------------------------------------------------------------------------
  // What the walk yields

  predicate SoundIn(tree: Node, entries: seq<Entry>) {
    forall i :: 0 <= i < |entries| ==> At(tree, entries[i].path) == Some(entries[i].node)
  }

  lemma ChildEntriesSound(tree: Node, e: Entry)
    requires At(tree, e.path) == Some(e.node)
    ensures SoundIn(tree, ChildEntries(e))
  {
    forall i | 0 <= i < |ChildEntries(e)|
      ensures At(tree, e.path + [i]) == Some(Children(e.node)[i])
    {
      AtAppend(tree, e.path, [i]);
      assert At(e.node, [i]) == At(Children(e.node)[i], []);
    }
  }

  lemma {:induction false} WalkFromSound(tree: Node, queue: seq<Entry>)
    requires SoundIn(tree, queue)
    ensures SoundIn(tree, WalkFrom(queue))
    decreases QueueSize(queue)
  {
    if queue != [] {
      NextShrinks(queue);
      ChildEntriesSound(tree, queue[0]);
      WalkFromSound(tree, Next(queue));
    }
  }

  /** Every node the walk yields is the subtree of `tree` at the position it is paired with. */
  lemma WalkSound(tree: Node)
    ensures SoundIn(tree, Walk(tree))
  {
    WalkFromSound(tree, [Entry([], tree)]);
  }

  lemma {:induction false} WalkFromComplete(queue: seq<Entry>, i: nat, q: Path)
    requires i < |queue| && At(queue[i].node, q).Some?
    ensures exists k :: 0 <= k < |WalkFrom(queue)| && WalkFrom(queue)[k].path == queue[i].path + q
    decreases QueueSize(queue), |q|
  {
    if i == 0 && q == [] {
      WalkFromTail(queue);
      assert WalkFrom(queue)[0].path == queue[i].path + q;
    } else {
      NextShrinks(queue);
      var next := Next(queue);
      var j, q' := i - 1, q;
      if i == 0 {
        j, q' := ChildPosition(queue, q);
      } else {
        assert next[j] == queue[i];
      }
      WalkFromComplete(next, j, q');
      var k :| 0 <= k < |WalkFrom(next)| && WalkFrom(next)[k].path == next[j].path + q';
      WalkFromTail(queue);
      assert WalkFrom(queue)[k + 1] == WalkFrom(next)[k];
    }
  }

  /** The walk from a queue yields its front and then the walk from the next queue. */
  lemma WalkFromTail(queue: seq<Entry>)
    requires queue != []
    ensures WalkFrom(queue) == [queue[0]] + WalkFrom(Next(queue))
  {
  }

  /** Where the descent along `q` from the front of the queue continues after one step. */
  lemma ChildPosition(queue: seq<Entry>, q: Path) returns (j: nat, q': Path)
    requires queue != [] && q != [] && At(queue[0].node, q).Some?
    ensures j < |Next(queue)| && |q'| < |q| && At(Next(queue)[j].node, q').Some?
    ensures Next(queue)[j].path + q' == queue[0].path + q
  {
    var c := q[0];
    var n := queue[0].node;
    assert c < |Children(n)| && At(n, q) == At(Children(n)[c], q[1..]);
    j, q' := |queue| - 1 + c, q[1..];
    var next := Next(queue);
    assert next[j] == ChildEntries(queue[0])[c] == Entry(queue[0].path + [c], Children(n)[c]);
    StepDown(queue[0].path, q);
  }

  lemma StepDown(p: Path, q: Path)
    requires q != []
    ensures (p + [q[0]]) + q[1..] == p + q
  {
    assert q == [q[0]] + q[1..];
  }

  /** Every position of the tree is visited by the walk. */
  lemma WalkComplete(tree: Node, q: Path)
    requires At(tree, q).Some?
    ensures exists k :: 0 <= k < |Walk(tree)| && Walk(tree)[k].path == q
  {
    var root := [Entry([], tree)];
    WalkFromComplete(root, 0, q);
    assert root[0].path + q == q;
    var k :| 0 <= k < |WalkFrom(root)| && WalkFrom(root)[k].path == root[0].path + q;
    assert Walk(tree)[k].path == q;
  }

  // ---------------------------------------------------------------------------
  // The walk is breadth-first: shallower first, left to right within one depth

  /** Queue positions never get shallower towards the back, and span at most two depths. */
  predicate Layered(queue: seq<Entry>) {
    forall i, j :: 0 <= i < j < |queue| ==> |queue[i].path| <= |queue[j].path| <= |queue[i].path| + 1
  }

  lemma NextLayered(queue: seq<Entry>)
    requires queue != [] && Layered(queue)
    ensures Layered(Next(queue))
  {
    var d := |queue[0].path|;
    var next := Next(queue);
    forall i, j | 0 <= i < j < |next|
      ensures |next[i].path| <= |next[j].path| <= |next[i].path| + 1
    {
      if j >= |queue| - 1 {
        assert |next[j].path| == d + 1;
        if i < |queue| - 1 {
          assert next[i] == queue[i + 1];
        }
      } else {
        assert next[i] == queue[i + 1] && next[j] == queue[j + 1];
      }
    }
  }

  /** `a` comes before `b` in dictionary order: they agree up to some index where `a` is smaller. */
  predicate LexLess(a: Path, b: Path) {
    exists k :: 0 <= k < |a| && k < |b| && a[..k] == b[..k] && a[k] < b[k]
  }

  /** Shallower positions first; at one depth, dictionary order. */
  predicate ShortLex(a: Path, b: Path) {
    |a| < |b| || (|a| == |b| && LexLess(a, b))
  }

  /** Sibling positions are ordered by their child index. */
  lemma LexLessSiblings(p: Path, i: nat, j: nat)
    requires i < j
    ensures LexLess(p + [i], p + [j])
  {
    var k := |p|;
    assert (p + [i])[..k] == p == (p + [j])[..k];
  }

  /** A position whose parent comes before `p` comes before every child of `p`. */
  lemma LexLessChild(x: Path, p: Path, c: nat)
    requires |x| == |p| + 1 && LexLess(x[..|p|], p)
    ensures LexLess(x, p + [c])
  {
    var k :| 0 <= k < |p| && x[..|p|][..k] == p[..k] && x[..|p|][k] < p[k];
    assert x[..k] == x[..|p|][..k];
    assert (p + [c])[..k] == p[..k];
  }

  /** Queue positions strictly increase in breadth-first order. */
  predicate Ordered(queue: seq<Entry>) {
    forall i, j :: 0 <= i < j < |queue| ==> ShortLex(queue[i].path, queue[j].path)
  }

  /** A queued position one level deeper than another has its parent before that other one. */
  predicate ParentsFirst(queue: seq<Entry>) {
    forall i, j :: 0 <= i < |queue| && 0 <= j < |queue| && |queue[j].path| == |queue[i].path| + 1 ==>
      LexLess(queue[j].path[..|queue[i].path|], queue[i].path)
  }

  lemma NextOrdered(queue: seq<Entry>)
    requires queue != [] && Layered(queue) && Ordered(queue) && ParentsFirst(queue)
    ensures Ordered(Next(queue)) && ParentsFirst(Next(queue))
  {
    var p := queue[0].path;
    var d := |p|;
    var next := Next(queue);
    var m := |queue| - 1;
    forall i | 0 <= i < |next|
      ensures i < m ==> next[i] == queue[i + 1] && d <= |next[i].path| <= d + 1
      ensures m <= i ==> next[i].path == p + [i - m]
    {
    }
    forall i, j | 0 <= i < j < |next|
      ensures ShortLex(next[i].path, next[j].path)
    {
      if m <= i {
        LexLessSiblings(p, i - m, j - m);
      } else if m <= j && |next[i].path| == d + 1 {
        assert LexLess(next[i].path[..d], p);
        LexLessChild(next[i].path, p, j - m);
      }
    }
    forall i, j | 0 <= i < |next| && 0 <= j < |next| && |next[j].path| == |next[i].path| + 1
      ensures LexLess(next[j].path[..|next[i].path|], next[i].path)
    {
      if m <= j {
        assert i < m && |next[i].path| == d;
        assert next[j].path[..d] == p;
        assert ShortLex(queue[0].path, queue[i + 1].path);
      }
    }
  }

  lemma {:induction false} WalkFromAfter(queue: seq<Entry>, x: Path)
    requires forall i :: 0 <= i < |queue| ==> ShortLex(x, queue[i].path)
    ensures forall k :: 0 <= k < |WalkFrom(queue)| ==> ShortLex(x, WalkFrom(queue)[k].path)
    decreases QueueSize(queue)
  {
    if queue != [] {
      NextShrinks(queue);
      var next := Next(queue);
      WalkFromAfter(next, x);
      assert WalkFrom(queue) == [queue[0]] + WalkFrom(next);
    }
  }

  lemma {:induction false} WalkFromOrdered(queue: seq<Entry>)
    requires Layered(queue) && Ordered(queue) && ParentsFirst(queue)
    ensures Ordered(WalkFrom(queue))
    decreases QueueSize(queue)
  {
    if queue != [] {
      NextShrinks(queue);
      NextLayered(queue);
      NextOrdered(queue);
      var next := Next(queue);
      WalkFromOrdered(next);
      WalkFromAfter(next, queue[0].path);
      var w, w' := WalkFrom(queue), WalkFrom(next);
      assert w == [queue[0]] + w';
      forall i, j | 0 <= i < j < |w|
        ensures ShortLex(w[i].path, w[j].path)
      {
        assert w[j] == w'[j - 1];
        if 0 < i { assert w[i] == w'[i - 1]; }
      }
    }
  }

  /**
   * `ast.walk` yields positions in strictly increasing breadth-first order:
   * shallower first, and left to right within one depth.  So no position
   * is yielded twice.
   */
  lemma WalkOrder(tree: Node)
    ensures forall i, j :: 0 <= i < j < |Walk(tree)| ==> ShortLex(Walk(tree)[i].path, Walk(tree)[j].path)
    ensures forall i, j :: 0 <= i < j < |Walk(tree)| ==> Walk(tree)[i].path != Walk(tree)[j].path
  {
    WalkFromOrdered([Entry([], tree)]);
  }

  /**
   * The call the loop stops at is the shallowest `Call` of the tree and,
   * among the `Call` nodes at that depth, the leftmost one.
   */
  lemma FirstCallShallowest(tree: Node, q: Path)
    requires FirstCall(tree).Some? && At(tree, q).Some? && At(tree, q).value.Call?
    ensures |FirstCall(tree).value.path| <= |q|
    ensures |FirstCall(tree).value.path| == |q| && q != FirstCall(tree).value.path ==> LexLess(FirstCall(tree).value.path, q)
  {
    var w := Walk(tree);
    WalkSound(tree);
    WalkOrder(tree);
    WalkComplete(tree, q);
    var k :| 0 <= k < |w| && w[k].path == q;
    var i := FirstCallIndex(w).value;
    assert FirstCall(tree).value == w[i];
    assert At(tree, w[k].path) == Some(w[k].node);
    assert i <= k;
    if i < k {
      assert ShortLex(w[i].path, w[k].path);
    }
  }

  // ---------------------------------------------------------------------------
  // Ancestors are visited first

  predicate IsParent(a: Path, b: Path) {
    |b| == |a| + 1 && IsPrefix(a, b)
  }

  lemma {:induction false} ParentVisitedEarlier(queue: seq<Entry>)
    ensures forall k :: 0 <= k < |WalkFrom(queue)| ==>
      WalkFrom(queue)[k] in queue || exists j :: 0 <= j < k && IsParent(WalkFrom(queue)[j].path, WalkFrom(queue)[k].path)
    decreases QueueSize(queue)
  {
    if queue != [] {
      NextShrinks(queue);
      var next := Next(queue);
      var w, w' := WalkFrom(queue), WalkFrom(next);
      ParentVisitedEarlier(next);
      forall k | 1 <= k < |w|
        ensures w[k] in queue || exists j :: 0 <= j < k && IsParent(w[j].path, w[k].path)
      {
        assert w[k] == w'[k - 1];
        if w'[k - 1] in next {
          if w[k] !in queue {
            assert w[k] in ChildEntries(queue[0]);
            assert IsParent(w[0].path, w[k].path);
          }
        } else {
          var j' :| 0 <= j' < k - 1 && IsParent(w'[j'].path, w'[k - 1].path);
          assert w[j' + 1] == w'[j'];
        }
      }
    }
  }

  /** Every ancestor of a visited node is visited before it. */
  lemma {:induction false} AncestorVisitedEarlier(tree: Node, k: nat, q: Path)
    requires k < |Walk(tree)|
    requires IsPrefix(q, Walk(tree)[k].path) && q != Walk(tree)[k].path
    ensures exists j :: 0 <= j < k && Walk(tree)[j].path == q
    decreases k
  {
    var w := Walk(tree);
    ParentVisitedEarlier([Entry([], tree)]);
    if w[k] in [Entry([], tree)] {
      assert false;
    } else {
      var j :| 0 <= j < k && IsParent(w[j].path, w[k].path);
      if q != w[j].path {
        assert IsPrefix(q, w[j].path) by {
          assert w[j].path == w[k].path[..|w[j].path|];
        }
        AncestorVisitedEarlier(tree, j, q);
      }
    }
  }

  /**
   * The call the loop stops at is a `Call` sitting at its position, every
   * node yielded before it is not a `Call`, and in particular no ancestor of
   * it is one.
   */
  lemma FirstCallFacts(tree: Node)
    ensures FirstCall(tree).Some? ==> FirstCall(tree).value.node.Call?
    ensures FirstCall(tree).Some? ==> At(tree, FirstCall(tree).value.path) == Some(FirstCall(tree).value.node)
    ensures FirstCall(tree).Some? ==> forall q :: IsPrefix(q, FirstCall(tree).value.path) && q != FirstCall(tree).value.path ==>
      At(tree, q).Some? && !At(tree, q).value.Call?
  {
    var w := Walk(tree);
    WalkSound(tree);
    if FirstCall(tree).Some? {
      var k := FirstCallIndex(w).value;
      forall q | IsPrefix(q, w[k].path) && q != w[k].path
        ensures At(tree, q).Some? && !At(tree, q).value.Call?
      {
        AncestorVisitedEarlier(tree, k, q);
        var j :| 0 <= j < k && w[j].path == q;
      }
    }
  }

  /** The loop finds no call exactly when the tree holds no `Call` node anywhere. */
  lemma FirstCallNone(tree: Node)
    ensures FirstCall(tree).None? <==> forall q :: At(tree, q).Some? ==> !At(tree, q).value.Call?
  {
    var w := Walk(tree);
    WalkSound(tree);
    if FirstCall(tree).None? {
      forall q | At(tree, q).Some?
        ensures !At(tree, q).value.Call?
      {
        WalkComplete(tree, q);
        var k :| 0 <= k < |w| && w[k].path == q;
      }
    } else {
      var e := FirstCall(tree).value;
      assert At(tree, e.path).Some? && At(tree, e.path).value.Call?;
    }
  }

  // ---------------------------------------------------------------------------
  // Rewriting a call does not move the first call

  /**
   * `e'` is what the walk yields in place of `e` once the subtree at `p`,
   * a `Call`, has been replaced by `r`.
   */
  predicate Corresponds(e: Entry, e': Entry, p: Path, r: Node) {
    && e'.path == e.path
    && if IsPrefix(e.path, p) then
         && At(e.node, p[|e.path|..]).Some?
         && At(e.node, p[|e.path|..]).value.Call?
         && e'.node == ReplaceAt(e.node, p[|e.path|..], r)
       else e'.node == e.node
  }

  predicate AllCorrespond(queue: seq<Entry>, queue': seq<Entry>, p: Path, r: Node) {
    |queue'| == |queue| && forall i :: 0 <= i < |queue| ==> Corresponds(queue[i], queue'[i], p, r)
  }

  lemma CorrespondingKinds(e: Entry, e': Entry, p: Path, r: Node)
    requires Corresponds(e, e', p, r) && r.Call?
    ensures e'.node.Call? == e.node.Call?
  {
    if IsPrefix(e.path, p) {
      var rel := p[|e.path|..];
      if rel == [] {
        assert At(e.node, rel) == Some(e.node);
      } else {
        assert rel[0] < |Children(e.node)|;
      }
    }
  }

  lemma ChildEntriesCorrespond(e: Entry, e': Entry, p: Path, r: Node)
    requires Corresponds(e, e', p, r) && !e.node.Call?
    ensures AllCorrespond(ChildEntries(e), ChildEntries(e'), p, r)
  {
    var cs := Children(e.node);
    if IsPrefix(e.path, p) {
      var rel := p[|e.path|..];
      assert rel != [];
      var i := rel[0];
      assert i < |cs|;
      assert Children(e'.node) == cs[i := ReplaceAt(cs[i], rel[1..], r)];
      forall c | 0 <= c < |cs|
        ensures Corresponds(ChildEntries(e)[c], ChildEntries(e')[c], p, r)
      {
        if c == i {
          assert p[..|e.path| + 1] == e.path + [c];
          assert p[|e.path| + 1..] == rel[1..];
        } else {
          assert !IsPrefix(e.path + [c], p);
        }
      }
    }
  }

  lemma {:induction false} WalkFromCorresponds(queue: seq<Entry>, queue': seq<Entry>, p: Path, r: Node)
    requires AllCorrespond(queue, queue', p, r) && r.Call?
    ensures FirstCallIndex(WalkFrom(queue')) == FirstCallIndex(WalkFrom(queue))
    ensures FirstCallIndex(WalkFrom(queue)).Some? ==>
      WalkFrom(queue')[FirstCallIndex(WalkFrom(queue)).value].path == WalkFrom(queue)[FirstCallIndex(WalkFrom(queue)).value].path
    decreases QueueSize(queue)
  {
    if queue != [] {
      var e, e' := queue[0], queue'[0];
      assert Corresponds(e, e', p, r);
      CorrespondingKinds(e, e', p, r);
      NextShrinks(queue);
      var rest, rest' := WalkFrom(Next(queue)), WalkFrom(Next(queue'));
      WalkFromTail(queue);
      WalkFromTail(queue');
      FirstCallIndexCons(e, rest);
      FirstCallIndexCons(e', rest');
      if !e.node.Call? {
        NextCorrespond(queue, queue', p, r);
        WalkFromCorresponds(Next(queue), Next(queue'), p, r);
      }
    }
  }

  /** The first `Call` of a non-empty sequence: its head, or one past the first `Call` of its tail. */
  lemma FirstCallIndexCons(x: Entry, rest: seq<Entry>)
    ensures FirstCallIndex([x] + rest) ==
      if x.node.Call? then Some(0)
      else match FirstCallIndex(rest) case None => None case Some(k) => Some(k + 1)
  {
    assert ([x] + rest)[1..] == rest;
  }

  lemma NextCorrespond(queue: seq<Entry>, queue': seq<Entry>, p: Path, r: Node)
    requires queue != [] && AllCorrespond(queue, queue', p, r) && !queue[0].node.Call?
    ensures AllCorrespond(Next(queue), Next(queue'), p, r)
  {
    var e, e' := queue[0], queue'[0];
    assert Corresponds(e, e', p, r);
    ChildEntriesCorrespond(e, e', p, r);
    var next, next' := Next(queue), Next(queue');
    forall i | 0 <= i < |next|
      ensures Corresponds(next[i], next'[i], p, r)
    {
      if i < |queue| - 1 {
        assert next[i] == queue[i + 1] && next'[i] == queue'[i + 1];
      } else {
        var c := i - (|queue| - 1);
        assert next[i] == ChildEntries(e)[c] && next'[i] == ChildEntries(e')[c];
      }
    }
  }

  /**
   * Replacing a `Call` node by another `Call` node leaves the walk choosing
   * the same position: every node it yields before reaching that position is
   * either untouched or an ancestor that keeps its kind.
   */
  lemma ReplaceCallKeepsFirstCall(tree: Node, p: Path, r: Node)
    requires At(tree, p).Some? && At(tree, p).value.Call? && r.Call?
    ensures FirstCall(ReplaceAt(tree, p, r)).Some? == FirstCall(tree).Some?
    ensures FirstCall(tree).Some? ==> FirstCall(ReplaceAt(tree, p, r)).value.path == FirstCall(tree).value.path
  {
    var e, e' := Entry([], tree), Entry([], ReplaceAt(tree, p, r));
    assert p[|e.path|..] == p;
    assert Corresponds(e, e', p, r);
    WalkFromCorresponds([e], [e'], p, r);
  }
}
