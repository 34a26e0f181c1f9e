/**
 * The generic tree interface of api/treecell/TreeCell.kt: a titled node with
 * ordered children, its preorder/postorder flattening, its title-keyed map and
 * its shape-preserving conversion into another kind of tree.
 *
 * Every tree of the program is an instance of `Tree<S>`, where `S` is the
 * per-node state: the measured cells, the mutable averaging copy, the draft
 * cells and the node view of a timing tree only differ in their state type.
 */
module TreeCell {

  /** A node: its title, its state and its children in insertion (call) order. */
  datatype Tree<S> = Tree(title: string, state: S, children: seq<Tree<S>>)

  datatype TraversalType = Preorder | Postorder

  /** Number of nodes of a tree. */
  function Size<S>(t: Tree<S>): nat
    decreases t, 1
  {
    1 + SizeAll(t.children)
  }

  /** Number of nodes of a forest. */
  function SizeAll<S>(ts: seq<Tree<S>>): nat
    decreases ts, 0
  {
    if ts == [] then 0 else Size(ts[0]) + SizeAll(ts[1..])
  }

  /**
   * `flatten`: the node itself before (preorder) or after (postorder) the
   * flattening of its children, visited left to right.
   */
  function Flatten<S>(t: Tree<S>, order: TraversalType): (r: seq<Tree<S>>)
    ensures |r| == Size(t)
    ensures order == Preorder ==> r[0] == t
    ensures order == Postorder ==> r[|r| - 1] == t
    decreases t, 1
  {
    match order
    case Preorder => [t] + FlattenAll(t.children, order)
    case Postorder => FlattenAll(t.children, order) + [t]
  }

  /** The flattenings of a forest, concatenated left to right. */
  function FlattenAll<S>(ts: seq<Tree<S>>, order: TraversalType): (r: seq<Tree<S>>)
    ensures |r| == SizeAll(ts)
    decreases ts, 0
  {
    if ts == [] then [] else Flatten(ts[0], order) + FlattenAll(ts[1..], order)
  }

  /** The titles of a list of nodes, in order. */
  function Titles<S>(ts: seq<Tree<S>>): (r: seq<string>)
    ensures |r| == |ts|
  {
    seq(|ts|, i requires 0 <= i < |ts| => ts[i].title)
  }

  lemma {:induction false} FlattenAllAppend<S>(xs: seq<Tree<S>>, ys: seq<Tree<S>>, order: TraversalType)
    ensures FlattenAll(xs + ys, order) == FlattenAll(xs, order) + FlattenAll(ys, order)
    decreases |xs|
  {
    if xs != [] {
      assert (xs + ys)[0] == xs[0];
      assert (xs + ys)[1..] == xs[1..] + ys;
      FlattenAllAppend(xs[1..], ys, order);
    } else {
      assert xs + ys == ys;
    }
  }

  lemma TitlesAppend<S>(xs: seq<Tree<S>>, ys: seq<Tree<S>>)
    ensures Titles(xs + ys) == Titles(xs) + Titles(ys)
  {
  }

  /** A root's title comes first in preorder and last in postorder, around its children's titles. */
  lemma RootTitles<S>(root: Tree<S>)
    ensures Titles(Flatten(root, Preorder)) == [root.title] + Titles(FlattenAll(root.children, Preorder))
    ensures Titles(Flatten(root, Postorder)) == Titles(FlattenAll(root.children, Postorder)) + [root.title]
  {
    assert Titles([root]) == [root.title];
    TitlesAppend([root], FlattenAll(root.children, Preorder));
    TitlesAppend(FlattenAll(root.children, Postorder), [root]);
  }

  // ---------------------------------------------------------------------------
  // Traversal order

  /**
   * In preorder every node is immediately followed by the rest of its own
   * subtree: the block of `Size` entries starting at a node is that node's
   * preorder flattening.
   */
  ghost predicate SubtreeFollows<S>(p: seq<Tree<S>>)
  {
    forall i :: 0 <= i < |p| ==> FollowsAt(p, i)
  }

  ghost predicate FollowsAt<S>(p: seq<Tree<S>>, i: nat)
    requires i < |p|
  {
    i + Size(p[i]) <= |p| && p[i..i + Size(p[i])] == Flatten(p[i], Preorder)
  }

  /** In postorder every node is immediately preceded by the rest of its own subtree. */
  ghost predicate SubtreePrecedes<S>(p: seq<Tree<S>>)
  {
    forall i :: 0 <= i < |p| ==> PrecedesAt(p, i)
  }

  ghost predicate PrecedesAt<S>(p: seq<Tree<S>>, i: nat)
    requires i < |p|
  {
    Size(p[i]) <= i + 1 && p[i + 1 - Size(p[i])..i + 1] == Flatten(p[i], Postorder)
  }

  lemma SliceLeft<T>(a: seq<T>, b: seq<T>, j: nat, k: nat)
    requires j <= k <= |a|
    ensures (a + b)[j..k] == a[j..k]
  {
  }

  lemma SliceRight<T>(a: seq<T>, b: seq<T>, j: nat, k: nat)
    requires |a| <= j <= k <= |a| + |b|
    ensures (a + b)[j..k] == b[j - |a|..k - |a|]
  {
  }

  lemma FollowsAtLeft<S>(a: seq<Tree<S>>, b: seq<Tree<S>>, i: nat)
    requires i < |a| && FollowsAt(a, i)
    ensures FollowsAt(a + b, i)
  {
    assert (a + b)[i] == a[i];
    SliceLeft(a, b, i, i + Size(a[i]));
  }

  lemma FollowsAtRight<S>(a: seq<Tree<S>>, b: seq<Tree<S>>, j: nat)
    requires j < |b| && FollowsAt(b, j)
    ensures FollowsAt(a + b, |a| + j)
  {
    assert (a + b)[|a| + j] == b[j];
    SliceRight(a, b, |a| + j, |a| + j + Size(b[j]));
  }

  lemma PrecedesAtLeft<S>(a: seq<Tree<S>>, b: seq<Tree<S>>, i: nat)
    requires i < |a| && PrecedesAt(a, i)
    ensures PrecedesAt(a + b, i)
  {
    assert (a + b)[i] == a[i];
    SliceLeft(a, b, i + 1 - Size(a[i]), i + 1);
  }

  lemma PrecedesAtRight<S>(a: seq<Tree<S>>, b: seq<Tree<S>>, j: nat)
    requires j < |b| && PrecedesAt(b, j)
    ensures PrecedesAt(a + b, |a| + j)
  {
    assert (a + b)[|a| + j] == b[j];
    SliceRight(a, b, |a| + j + 1 - Size(b[j]), |a| + j + 1);
  }

  lemma SubtreeFollowsAppend<S>(a: seq<Tree<S>>, b: seq<Tree<S>>)
    requires SubtreeFollows(a) && SubtreeFollows(b)
    ensures SubtreeFollows(a + b)
  {
    forall i | 0 <= i < |a + b|
      ensures FollowsAt(a + b, i)
    {
      if i < |a| {
        FollowsAtLeft(a, b, i);
      } else {
        FollowsAtRight(a, b, i - |a|);
      }
    }
  }

  lemma SubtreePrecedesAppend<S>(a: seq<Tree<S>>, b: seq<Tree<S>>)
    requires SubtreePrecedes(a) && SubtreePrecedes(b)
    ensures SubtreePrecedes(a + b)
  {
    forall i | 0 <= i < |a + b|
      ensures PrecedesAt(a + b, i)
    {
      if i < |a| {
        PrecedesAtLeft(a, b, i);
      } else {
        PrecedesAtRight(a, b, i - |a|);
      }
    }
  }

  /** `flatten(PREORDER)` lists each node before its descendants, which directly follow it. */
  lemma {:induction false} PreorderListsNodeBeforeDescendants<S>(t: Tree<S>)
    ensures SubtreeFollows(Flatten(t, Preorder))
    decreases t, 1
  {
    var q := FlattenAll(t.children, Preorder);
    PreorderForest(t.children);
    assert Flatten(t, Preorder) == [t] + q;
    forall i | 0 <= i < |[t] + q|
      ensures FollowsAt([t] + q, i)
    {
      if i == 0 {
        assert ([t] + q)[0..Size(t)] == [t] + q;
      } else {
        FollowsAtRight([t], q, i - 1);
      }
    }
  }

  lemma {:induction false} PreorderForest<S>(ts: seq<Tree<S>>)
    ensures SubtreeFollows(FlattenAll(ts, Preorder))
    decreases ts, 0
  {
    if ts != [] {
      PreorderListsNodeBeforeDescendants(ts[0]);
      PreorderForest(ts[1..]);
      SubtreeFollowsAppend(Flatten(ts[0], Preorder), FlattenAll(ts[1..], Preorder));
    }
  }

  /** `flatten(POSTORDER)` lists each node after its descendants, which directly precede it. */
  lemma {:induction false} PostorderListsNodeAfterDescendants<S>(t: Tree<S>)
    ensures SubtreePrecedes(Flatten(t, Postorder))
    decreases t, 1
  {
    var q := FlattenAll(t.children, Postorder);
    PostorderForest(t.children);
    assert Flatten(t, Postorder) == q + [t];
    forall i | 0 <= i < |q + [t]|
      ensures PrecedesAt(q + [t], i)
    {
      if i == |q| {
        assert (q + [t])[0..|q| + 1] == q + [t];
      } else {
        PrecedesAtLeft(q, [t], i);
      }
    }
  }

  lemma {:induction false} PostorderForest<S>(ts: seq<Tree<S>>)
    ensures SubtreePrecedes(FlattenAll(ts, Postorder))
    decreases ts, 0
  {
    if ts != [] {
      PostorderListsNodeAfterDescendants(ts[0]);
      PostorderForest(ts[1..]);
      SubtreePrecedesAppend(Flatten(ts[0], Postorder), FlattenAll(ts[1..], Postorder));
    }
  }

  /** Both orders list the same nodes, each as often: one is a permutation of the other. */
  lemma {:induction false} TraversalsArePermutations<S>(t: Tree<S>)
    ensures multiset(Flatten(t, Preorder)) == multiset(Flatten(t, Postorder))
    decreases t, 1
  {
    ForestTraversalsArePermutations(t.children);
  }

  lemma {:induction false} ForestTraversalsArePermutations<S>(ts: seq<Tree<S>>)
    ensures multiset(FlattenAll(ts, Preorder)) == multiset(FlattenAll(ts, Postorder))
    decreases ts, 0
  {
    if ts != [] {
      TraversalsArePermutations(ts[0]);
      ForestTraversalsArePermutations(ts[1..]);
    }
  }

  // ---------------------------------------------------------------------------
  // Title-keyed map

  /** Whether `toMap` records a node: always when untrimmed, else only when it has children. */
  predicate Listed<S>(node: Tree<S>, unTrimmed: bool)
  {
    unTrimmed || |node.children| > 0
  }

  /**
   * `mapRec`: record the node under its title (overwriting), then recurse into
   * the children. The result is the reference index of the listed nodes of
   * the subtree, inserted in preorder.
   */
  function MapRec<S>(node: Tree<S>, m: map<string, Tree<S>>, unTrimmed: bool): (r: map<string, Tree<S>>)
    ensures r == Index(m, Flatten(node, Preorder), unTrimmed)
    decreases node, 1
  {
    var m1 := if Listed(node, unTrimmed) then m[node.title := node] else m;
    var p := Flatten(node, Preorder);
    assert p[0] == node && p[1..] == FlattenAll(node.children, Preorder);
    MapRecAll(node.children, m1, unTrimmed)
  }

  /** The `forEach` over the children in `mapRec`: the reference index of the forest in preorder. */
  function MapRecAll<S>(ts: seq<Tree<S>>, m: map<string, Tree<S>>, unTrimmed: bool): (r: map<string, Tree<S>>)
    ensures r == Index(m, FlattenAll(ts, Preorder), unTrimmed)
    decreases ts, 0
  {
    if ts == [] then m
    else
      IndexAppend(m, Flatten(ts[0], Preorder), FlattenAll(ts[1..], Preorder), unTrimmed);
      MapRecAll(ts[1..], MapRec(ts[0], m, unTrimmed), unTrimmed)
  }

  /**
   * `toMap(unTrimmed)` has a key exactly for the titles of listed nodes (every
   * node when untrimmed, nodes with children otherwise), and under each title
   * holds the listed node with that title that comes last in preorder.
   */
  function ToMap<S>(t: Tree<S>, unTrimmed: bool): (r: map<string, Tree<S>>)
    ensures forall k :: k in r <==> HasListed(Flatten(t, Preorder), unTrimmed, k)
    ensures forall k :: k in r ==>
      exists i :: LastListedAt(Flatten(t, Preorder), unTrimmed, k, i) && r[k] == Flatten(t, Preorder)[i]
  {
    var p := Flatten(t, Preorder);
    IndexKeys(map[], p, unTrimmed);
    assert forall k | k in Index(map[], p, unTrimmed) ::
      exists i :: LastListedAt(p, unTrimmed, k, i) && Index(map[], p, unTrimmed)[k] == p[i] by {
      forall k | k in Index(map[], p, unTrimmed)
        ensures exists i :: LastListedAt(p, unTrimmed, k, i) && Index(map[], p, unTrimmed)[k] == p[i]
      {
        IndexLastWins(map[], p, unTrimmed, k);
      }
    }
    MapRec(t, map[], unTrimmed)
  }

  /** Reference: insert the listed nodes of a list, in list order, each overwriting its title. */
  function Index<S>(m: map<string, Tree<S>>, xs: seq<Tree<S>>, unTrimmed: bool): map<string, Tree<S>>
    decreases |xs|
  {
    if xs == [] then m
    else Index(if Listed(xs[0], unTrimmed) then m[xs[0].title := xs[0]] else m, xs[1..], unTrimmed)
  }

  /** Some listed entry of `xs` carries title `k`. */
  ghost predicate HasListed<S>(xs: seq<Tree<S>>, unTrimmed: bool, k: string)
  {
    exists i :: 0 <= i < |xs| && Listed(xs[i], unTrimmed) && xs[i].title == k
  }

  /** `xs[i]` is the last listed entry of `xs` with title `k`. */
  ghost predicate LastListedAt<S>(xs: seq<Tree<S>>, unTrimmed: bool, k: string, i: int)
  {
    && 0 <= i < |xs| && Listed(xs[i], unTrimmed) && xs[i].title == k
    && forall j :: i < j < |xs| && Listed(xs[j], unTrimmed) ==> xs[j].title != k
  }

  lemma {:induction false} IndexAppend<S>(m: map<string, Tree<S>>, xs: seq<Tree<S>>, ys: seq<Tree<S>>, unTrimmed: bool)
    ensures Index(m, xs + ys, unTrimmed) == Index(Index(m, xs, unTrimmed), ys, unTrimmed)
    decreases |xs|
  {
    if xs == [] {
      assert xs + ys == ys;
    } else {
      assert (xs + ys)[0] == xs[0];
      assert (xs + ys)[1..] == xs[1..] + ys;
      IndexAppend(if Listed(xs[0], unTrimmed) then m[xs[0].title := xs[0]] else m, xs[1..], ys, unTrimmed);
    }
  }

  /** The reference index has a key for every listed title and for the keys it started with. */
  lemma {:induction false} IndexKeys<S>(m: map<string, Tree<S>>, xs: seq<Tree<S>>, unTrimmed: bool)
    ensures forall k :: k in Index(m, xs, unTrimmed) <==> k in m || HasListed(xs, unTrimmed, k)
    decreases |xs|
  {
    if xs != [] {
      var m1 := if Listed(xs[0], unTrimmed) then m[xs[0].title := xs[0]] else m;
      var tail := xs[1..];
      IndexKeys(m1, tail, unTrimmed);
      forall k
        ensures k in Index(m, xs, unTrimmed) <==> k in m || HasListed(xs, unTrimmed, k)
      {
        if HasListed(xs, unTrimmed, k) {
          var i :| 0 <= i < |xs| && Listed(xs[i], unTrimmed) && xs[i].title == k;
          if i > 0 {
            assert tail[i - 1] == xs[i];
          }
        }
        if HasListed(tail, unTrimmed, k) {
          var i :| 0 <= i < |tail| && Listed(tail[i], unTrimmed) && tail[i].title == k;
          assert xs[i + 1] == tail[i];
        }
      }
    }
  }

  /** A key no listed entry carries keeps the value it started with. */
  lemma {:induction false} IndexKeepsUnlisted<S>(m: map<string, Tree<S>>, xs: seq<Tree<S>>, unTrimmed: bool, k: string)
    requires k in m && !HasListed(xs, unTrimmed, k)
    ensures k in Index(m, xs, unTrimmed) && Index(m, xs, unTrimmed)[k] == m[k]
    decreases |xs|
  {
    if xs != [] {
      var m1 := if Listed(xs[0], unTrimmed) then m[xs[0].title := xs[0]] else m;
      var tail := xs[1..];
      IndexKeepsUnlisted(m1, tail, unTrimmed, k);
    }
  }

  /** Under each listed title the reference index holds the last listed entry with that title. */
  lemma {:induction false} IndexLastWins<S>(m: map<string, Tree<S>>, xs: seq<Tree<S>>, unTrimmed: bool, k: string)
    requires HasListed(xs, unTrimmed, k)
    ensures k in Index(m, xs, unTrimmed)
    ensures exists i :: LastListedAt(xs, unTrimmed, k, i) && Index(m, xs, unTrimmed)[k] == xs[i]
    decreases |xs|
  {
    var m1 := if Listed(xs[0], unTrimmed) then m[xs[0].title := xs[0]] else m;
    var tail := xs[1..];
    if HasListed(tail, unTrimmed, k) {
      IndexLastWins(m1, tail, unTrimmed, k);
      var i :| LastListedAt(tail, unTrimmed, k, i) && Index(m1, tail, unTrimmed)[k] == tail[i];
      assert LastListedAt(xs, unTrimmed, k, i + 1) by {
        forall j | i + 1 < j < |xs| && Listed(xs[j], unTrimmed)
          ensures xs[j].title != k
        {
          assert xs[j] == tail[j - 1];
        }
      }
    } else {
      IndexKeepsUnlisted(m1, tail, unTrimmed, k);
      assert LastListedAt(xs, unTrimmed, k, 0) by {
        forall j | 0 < j < |xs| && Listed(xs[j], unTrimmed)
          ensures xs[j].title != k
        {
          assert xs[j] == tail[j - 1];
        }
      }
    }
  }

  // ---------------------------------------------------------------------------
  // Conversion

  /** Two trees with the same number of children at every position. */
  ghost predicate SameShape<A, B>(x: Tree<A>, y: Tree<B>)
    decreases x
  {
    && |x.children| == |y.children|
    && forall i :: 0 <= i < |x.children| ==> SameShape(x.children[i], y.children[i])
  }

  /**
   * `convert(action)`: apply `action` to the node for its title and state, and
   * rebuild the children by converting each child in order. The result has
   * the input's shape, and its root carries the title and state the action
   * gives the input's root.
   */
  function Convert<S, R>(t: Tree<S>, action: Tree<S> -> Tree<R>): (r: Tree<R>)
    ensures SameShape(t, r)
    ensures r.title == action(t).title && r.state == action(t).state
    decreases t
  {
    var cell := action(t);
    Tree(cell.title, cell.state, seq(|t.children|, i requires 0 <= i < |t.children| => Convert(t.children[i], action)))
  }

  /** `q` is `p` with every node replaced by the title and state `action` gives it. */
  ghost predicate Relabelled<S, R>(p: seq<Tree<S>>, q: seq<Tree<R>>, action: Tree<S> -> Tree<R>)
  {
    && |q| == |p|
    && forall i :: 0 <= i < |p| ==> q[i].title == action(p[i]).title && q[i].state == action(p[i]).state
  }

  /** `convert` applies `action` exactly once per node: its flattening is the relabelled input flattening. */
  lemma {:induction false} ConvertFlatten<S, R>(t: Tree<S>, action: Tree<S> -> Tree<R>, order: TraversalType)
    ensures Relabelled(Flatten(t, order), Flatten(Convert(t, action), order), action)
    decreases t, 1
  {
    var u := Convert(t, action);
    ConvertFlattenAll(t.children, u.children, action, order);
    var p, q := FlattenAll(t.children, order), FlattenAll(u.children, order);
    match order
    case Preorder =>
      assert Relabelled([t], [u], action);
      RelabelledAppend([t], p, [u], q, action);
    case Postorder =>
      assert Relabelled([t], [u], action);
      RelabelledAppend(p, [t], q, [u], action);
  }

  lemma {:induction false} ConvertFlattenAll<S, R>(ts: seq<Tree<S>>, us: seq<Tree<R>>, action: Tree<S> -> Tree<R>, order: TraversalType)
    requires |us| == |ts| && forall i :: 0 <= i < |ts| ==> us[i] == Convert(ts[i], action)
    ensures Relabelled(FlattenAll(ts, order), FlattenAll(us, order), action)
    decreases ts, 0
  {
    if ts != [] {
      ConvertFlatten(ts[0], action, order);
      ConvertFlattenAll(ts[1..], us[1..], action, order);
      RelabelledAppend(Flatten(ts[0], order), FlattenAll(ts[1..], order), Flatten(us[0], order), FlattenAll(us[1..], order), action);
    }
  }

  lemma RelabelledAppend<S, R>(p1: seq<Tree<S>>, p2: seq<Tree<S>>, q1: seq<Tree<R>>, q2: seq<Tree<R>>, action: Tree<S> -> Tree<R>)
    requires Relabelled(p1, q1, action) && Relabelled(p2, q2, action)
    ensures Relabelled(p1 + p2, q1 + q2, action)
  {
    var p, q := p1 + p2, q1 + q2;
    forall i | 0 <= i < |p|
      ensures q[i].title == action(p[i]).title && q[i].state == action(p[i]).state
    {
      if i >= |p1| {
        assert p[i] == p2[i - |p1|] && q[i] == q2[i - |p1|];
      }
    }
  }

  /** A conversion whose action keeps every node's title and state copies the tree exactly. */
  lemma {:induction false} ConvertIdentity<S>(t: Tree<S>, action: Tree<S> -> Tree<S>)
    requires forall x :: action(x).title == x.title && action(x).state == x.state
    ensures Convert(t, action) == t
    decreases t
  {
    forall i | 0 <= i < |t.children| {
      ConvertIdentity(t.children[i], action);
    }
    assert Convert(t, action).children == t.children;
  }
}
