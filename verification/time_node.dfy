/**
 * core/timenode/TimeNode.kt: a timed region's node, which knows its parent,
 * completes at most once, and decides where the next region goes from its
 * own completion state (the implicit cursor).
 *
 * The object graph is an arena: node `i` of a `seq<Node>` refers to its
 * parent and children by index. The tree being built is rooted at index 0.
 */
module TimeNode {
  import opened Wrappers
  import opened TreeCell

  /** `TimeNodeState`: `Active` until the region closes, then one of the three `Completed` states. */
  datatype NodeState = Active | Complete(time: int) | Invalid | Error {
    predicate IsCompleted() {
      !Active?
    }
  }

  /** `TimeNodeState.Completed`. */
  type Completed = s: NodeState | s.IsCompleted() witness Invalid

  /** One `TimeNode`: its title, its parent reference (`null` for a root), its state and its children. */
  datatype Node = Node(title: string, parent: Option<nat>, state: NodeState, children: seq<nat>)

  type Arena = seq<Node>

  /** The two exceptions a node can throw. */
  datatype NodeError =
    | AlreadyComplete  // "This time node is complete. time cannot be re-assigned"
    | NoOpenScope      // "Root Node has no Parent!"

  /**
   * The arena holds one tree rooted at index 0: every other node's parent
   * was created before it, and a parent's children point back to it.
   */
  ghost predicate Valid(a: Arena)
  {
    && |a| > 0
    && a[0].parent == None
    && (forall i :: 0 < i < |a| ==> a[i].parent.Some? && a[i].parent.value < i)
    && (forall i, k :: 0 <= i < |a| && 0 <= k < |a[i].children| ==>
          i < a[i].children[k] < |a| && a[a[i].children[k]].parent == Some(i))
  }

  /** A fresh node: `Active`, no children. */
  function NewNode(title: string, parent: Option<nat>): Node
  {
    Node(title, parent, Active, [])
  }

  // ---------------------------------------------------------------------------
  // Completion

  /**
   * The private `timeState` setter: assigning any state to a node that is
   * already `Completed` throws; otherwise only that node's state changes.
   */
  function SetState(a: Arena, i: nat, s: NodeState): (r: Result<Arena, NodeError>)
    requires Valid(a) && i < |a|
    ensures r.Failure? <==> a[i].state.IsCompleted()
    ensures r.Failure? ==> r.error == AlreadyComplete
    ensures r.Success? ==> Valid(r.value) && |r.value| == |a| && r.value[i].state == s
    ensures r.Success? ==> r.value[i].(state := a[i].state) == a[i]
    ensures r.Success? ==> forall k :: 0 <= k < |a| && k != i ==> r.value[k] == a[k]
  {
    if a[i].state.IsCompleted() then Failure(AlreadyComplete)
    else Success(a[i := a[i].(state := s)])
  }

  /** `complete(duration)`: the node becomes `Complete(duration)` and the duration is returned. */
  function CompleteDuration(a: Arena, i: nat, duration: int): (r: Result<(Arena, int), NodeError>)
    requires Valid(a) && i < |a|
    ensures r.Failure? <==> a[i].state.IsCompleted()
    ensures r.Failure? ==> r.error == AlreadyComplete
    ensures r.Success? ==> r.value.1 == duration && Valid(r.value.0) && |r.value.0| == |a|
    ensures r.Success? ==> r.value.0[i] == a[i].(state := Complete(duration))
    ensures r.Success? ==> forall k :: 0 <= k < |a| && k != i ==> r.value.0[k] == a[k]
  {
    var a' :- SetState(a, i, Complete(duration));
    Success((a', duration))
  }

  /** `complete(state)` for a `Completed` state. */
  function CompleteState(a: Arena, i: nat, s: Completed): (r: Result<Arena, NodeError>)
    requires Valid(a) && i < |a|
    ensures r.Failure? <==> a[i].state.IsCompleted()
    ensures r.Failure? ==> r.error == AlreadyComplete
    ensures r.Success? ==> Valid(r.value) && |r.value| == |a| && r.value[i] == a[i].(state := s)
    ensures r.Success? ==> forall k :: 0 <= k < |a| && k != i ==> r.value[k] == a[k]
  {
    SetState(a, i, s)
  }

  /**
   * Completing a node twice throws, whatever `Completed` state the first
   * call passes and whether the second passes a state or a duration; in
   * particular completing a node with `Error` and then with a measured
   * duration throws.
   */
  lemma SecondCompletionThrows(a: Arena, i: nat, first: Completed, second: Completed, duration: int)
    requires Valid(a) && i < |a|
    ensures CompleteState(a, i, first).Success? ==>
      CompleteState(CompleteState(a, i, first).value, i, second) == Failure(AlreadyComplete)
    ensures CompleteState(a, i, first).Success? ==>
      CompleteDuration(CompleteState(a, i, first).value, i, duration) == Failure(AlreadyComplete)
  {
  }

  // ---------------------------------------------------------------------------
  // Ancestry and the implicit cursor

  /** The chain of nodes from `c` up to the root: `c`, its parent, its grandparent, ... */
  function Path(a: Arena, c: nat): (p: seq<nat>)
    requires Valid(a) && c < |a|
    ensures |p| >= 1 && p[0] == c && p[|p| - 1] == 0
    ensures forall k :: 0 <= k < |p| ==> p[k] < |a|
    ensures forall k :: 0 <= k < |p| - 1 ==> a[p[k]].parent == Some(p[k + 1])
    decreases c
  {
    match a[c].parent
    case None => [c]
    case Some(p) => [c] + Path(a, p)
  }

  /** `x` is the first `Active` node of the path `p` at or after position `from`. */
  ghost predicate FirstActiveFrom(a: Arena, p: seq<nat>, from: nat, x: nat)
  {
    exists k :: from <= k < |p| && p[k] == x && x < |a| && a[x].state.Active? &&
      forall j :: from <= j < k ==> p[j] < |a| && !a[p[j]].state.Active?
  }

  /** No node of the path `p` at or after position `from` is `Active`. */
  ghost predicate NoneActiveFrom(a: Arena, p: seq<nat>, from: nat)
  {
    forall j :: from <= j < |p| ==> p[j] < |a| && !a[p[j]].state.Active?
  }

  /** The nearest `Active` node among `c` and its ancestors: the scope a region opened at `c` belongs to. */
  function NearestActive(a: Arena, c: nat): (r: Option<nat>)
    requires Valid(a) && c < |a|
    ensures r.Some? ==> r.value <= c && a[r.value].state.Active?
    ensures r.Some? ==> FirstActiveFrom(a, Path(a, c), 0, r.value)
    ensures r.None? ==> NoneActiveFrom(a, Path(a, c), 0)
    decreases c
  {
    if a[c].state.Active? then Some(c)
    else
      match a[c].parent
      case None => None
      case Some(p) =>
        var r := NearestActive(a, p);
        ShiftAlongPath(a, c, p, r);
        r
  }

  /** What holds of the path from the parent `p` holds one position later on the path from `c`. */
  lemma ShiftAlongPath(a: Arena, c: nat, p: nat, r: Option<nat>)
    requires Valid(a) && c < |a| && a[c].parent == Some(p) && p < c
    requires r.Some? ==> FirstActiveFrom(a, Path(a, p), 0, r.value)
    requires r.None? ==> NoneActiveFrom(a, Path(a, p), 0)
    ensures r.Some? ==> FirstActiveFrom(a, Path(a, c), 1, r.value)
    ensures r.None? ==> NoneActiveFrom(a, Path(a, c), 1)
    ensures !a[c].state.Active? && r.Some? ==> FirstActiveFrom(a, Path(a, c), 0, r.value)
    ensures !a[c].state.Active? && r.None? ==> NoneActiveFrom(a, Path(a, c), 0)
  {
    var pc, pp := Path(a, c), Path(a, p);
    assert pc == [c] + pp;
    if r.Some? {
      var k :| 0 <= k < |pp| && pp[k] == r.value && r.value < |a| && a[r.value].state.Active? &&
        forall j :: 0 <= j < k ==> pp[j] < |a| && !a[pp[j]].state.Active?;
      assert pc[k + 1] == r.value;
      assert forall j :: 1 <= j < k + 1 ==> pc[j] == pp[j - 1];
    }
  }

  /**
   * `findNextParent`: starting from the parent, walk up past `Completed`
   * nodes to the nearest `Active` one; a missing parent on the way (the walk
   * passed the root) throws "Root Node has no Parent!".
   */
  function FindNextParent(a: Arena, c: nat): (r: Result<nat, NodeError>)
    requires Valid(a) && c < |a|
    ensures r.Success? ==> r.value < c && FirstActiveFrom(a, Path(a, c), 1, r.value)
    ensures r.Failure? ==> r.error == NoOpenScope && NoneActiveFrom(a, Path(a, c), 1)
  {
    match a[c].parent
    case None => Failure(NoOpenScope)
    case Some(p) =>
      var n := NearestActive(a, p);
      ShiftAlongPath(a, c, p, n);
      match n
      case None => Failure(NoOpenScope)
      case Some(x) => Success(x)
  }

  /**
   * `a'` is `a` with one new `Active`, childless node `n` titled `title`
   * appended to the end of the children of the `Active` node `p`, and nothing
   * else changed.
   */
  ghost predicate AppendedChild(a: Arena, a': Arena, n: nat, p: nat, title: string)
  {
    && |a'| == |a| + 1 && n == |a| && p < |a|
    && a[p].state.Active?
    && a'[n] == NewNode(title, Some(p))
    && a'[p] == a[p].(children := a[p].children + [n])
    && forall k :: 0 <= k < |a| && k != p ==> a'[k] == a[k]
  }

  /** Append a new child to `p`. */
  function AppendChild(a: Arena, p: nat, title: string): (r: (Arena, nat))
    requires Valid(a) && p < |a| && a[p].state.Active?
    ensures Valid(r.0) && AppendedChild(a, r.0, r.1, p, title)
  {
    var n := |a|;
    var a' := a[p := a[p].(children := a[p].children + [n])] + [NewNode(title, Some(p))];
    assert forall i, k :: 0 <= i < |a'| && 0 <= k < |a'[i].children| ==>
      i < a'[i].children[k] < |a'| && a'[a'[i].children[k]].parent == Some(i) by {
      forall i, k | 0 <= i < |a'| && 0 <= k < |a'[i].children|
        ensures i < a'[i].children[k] < |a'| && a'[a'[i].children[k]].parent == Some(i)
      {
        if i == p && k == |a[p].children| {
          assert a'[i].children[k] == n;
        } else {
          assert a'[i].children[k] == a[i].children[k];
        }
      }
    }
    (a', n)
  }

  /**
   * `next(title)`: an `Active` cursor gets the new node as its last child;
   * a `Completed` cursor hands it to `findNextParent`'s node, or throws.
   */
  function Next(a: Arena, c: nat, title: string): (r: Result<(Arena, nat), NodeError>)
    requires Valid(a) && c < |a|
    ensures r.Success? <==> a[c].state.Active? || FindNextParent(a, c).Success?
    ensures r.Failure? ==> r.error == NoOpenScope
    ensures r.Success? ==> Valid(r.value.0)
    ensures r.Success? && a[c].state.Active? ==> AppendedChild(a, r.value.0, r.value.1, c, title)
    ensures r.Success? && !a[c].state.Active? ==>
      AppendedChild(a, r.value.0, r.value.1, FindNextParent(a, c).value, title)
  {
    if a[c].state.Active? then
      Success(AppendChild(a, c, title))
    else
      var p :- FindNextParent(a, c);
      Success(AppendChild(a, p, title))
  }

  /** Whichever branch `next` takes, the new node goes to the nearest `Active` node at or above the cursor. */
  lemma NextAppendsToNearestActive(a: Arena, c: nat, title: string)
    requires Valid(a) && c < |a|
    ensures Next(a, c, title).Success? <==> NearestActive(a, c).Some?
    ensures Next(a, c, title).Success? ==>
      AppendedChild(a, Next(a, c, title).value.0, Next(a, c, title).value.1, NearestActive(a, c).value, title)
  {
  }

  // ---------------------------------------------------------------------------
  // The tree a node reaches

  /** The subtree rooted at node `i`, as an algebraic tree of node states. */
  function Subtree(a: Arena, i: nat): Tree<NodeState>
    requires Valid(a) && i < |a|
    decreases |a| - i
  {
    Tree(a[i].title, a[i].state,
      seq(|a[i].children|, k requires 0 <= k < |a[i].children| => Subtree(a, a[i].children[k])))
  }

  /** The subtrees rooted at a list of nodes. */
  function Subtrees(a: Arena, ids: seq<nat>): (r: seq<Tree<NodeState>>)
    requires Valid(a) && forall k :: 0 <= k < |ids| ==> ids[k] < |a|
    ensures |r| == |ids|
  {
    seq(|ids|, k requires 0 <= k < |ids| => Subtree(a, ids[k]))
  }

  /** A subtree depends only on the nodes from its root onwards. */
  lemma {:induction false} SubtreeFrame(a: Arena, a': Arena, j: nat)
    requires Valid(a) && Valid(a') && j < |a| <= |a'|
    requires forall k :: j <= k < |a| ==> a'[k] == a[k]
    ensures Subtree(a', j) == Subtree(a, j)
    decreases |a| - j
  {
    forall k | 0 <= k < |a[j].children| {
      SubtreeFrame(a, a', a[j].children[k]);
    }
  }

  /**
   * Completing the nearest `Active` node `n` above the cursor makes the
   * nearest `Active` node above the cursor the one nearest above `n`'s parent.
   */
  lemma {:induction false} CompletingScopeMovesUp(a: Arena, a': Arena, c: nat, n: nat, o: nat)
    requires Valid(a) && Valid(a') && c < |a| && |a'| == |a| && n < |a| && o < |a|
    requires NearestActive(a, c) == Some(n) && a[n].parent == Some(o)
    requires a'[n] == a[n].(state := a'[n].state) && a'[n].state.IsCompleted()
    requires forall k :: 0 <= k < |a| && k != n ==> a'[k] == a[k]
    ensures NearestActive(a', c) == NearestActive(a', o)
    decreases c
  {
    if c != n {
      var p := a[c].parent.value;
      CompletingScopeMovesUp(a, a', p, n, o);
    }
  }
}
