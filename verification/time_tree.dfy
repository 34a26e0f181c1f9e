/**
 * core/timenode/TimeTree.kt: the root of one iteration's timing tree and the
 * cursor `incCurrentNode` moves, and `addTimeNode`, which opens a region,
 * runs its timed action and completes the region with the action's result.
 *
 * A timed action is modelled by what matters to the tree: the nested
 * `addTimeNode` calls it makes, in order, and the `Completed` state it
 * returns (`Region`). Measuring the elapsed time is outside the model; the
 * duration arrives inside the returned state.
 */
module TimeTree {
  import opened Wrappers
  import opened TreeCell
  import opened TimeNode

  /** A `TimeTree`: `iterationRoot` is arena node 0, `currentNode` is `cursor`. */
  datatype TimingTree = TimingTree(name: string, arena: Arena, cursor: nat)

  ghost predicate WellFormed(t: TimingTree)
  {
    Valid(t.arena) && t.cursor < |t.arena|
  }

  /** The tree holds only a fresh root titled `name`, and the cursor is on it. */
  ghost predicate FreshRoot(t: TimingTree, name: string)
  {
    && t.name == name && t.cursor == 0 && |t.arena| == 1
    && t.arena[0].title == name && t.arena[0].state.Active? && t.arena[0].children == []
  }

  /** The constructor `TimeTree(name)`. */
  function Create(name: string): (t: TimingTree)
    ensures WellFormed(t) && FreshRoot(t, name)
  {
    TimingTree(name, [NewNode(name, None)], 0)
  }

  /** `resetTree`: a new root with the tree's name; nothing of the previous tree is kept. */
  function ResetTree(t: TimingTree): (r: TimingTree)
    ensures WellFormed(r) && FreshRoot(r, t.name)
  {
    t.(arena := [NewNode(t.name, None)], cursor := 0)
  }

  /** `incCurrentNode`: `next(title)` from the cursor; the cursor moves to the new node, which is returned. */
  function IncCurrentNode(t: TimingTree, title: string): (r: Result<(TimingTree, nat), NodeError>)
    requires WellFormed(t)
    ensures r.Success? <==> Next(t.arena, t.cursor, title).Success?
    ensures r.Success? ==> WellFormed(r.value.0) && r.value.0.name == t.name
    ensures r.Success? ==> r.value.0.cursor == r.value.1
    ensures r.Success? ==> (r.value.0.arena, r.value.1) == Next(t.arena, t.cursor, title).value
  {
    var step :- Next(t.arena, t.cursor, title);
    Success((t.(arena := step.0, cursor := step.1), step.1))
  }

  // ---------------------------------------------------------------------------
  // Timed regions

  /**
   * One `addTimeNode(title) { ... }` call: the `addTimeNode` calls its action
   * makes, in order, and the `Completed` state the action returns.
   */
  datatype Region = Region(title: string, body: seq<Region>, outcome: Completed)

  /** Number of nodes a region creates. */
  function RegionSize(r: Region): nat
    decreases r, 1
  {
    1 + RegionsSize(r.body)
  }

  function RegionsSize(prog: seq<Region>): nat
    decreases prog, 0
  {
    if prog == [] then 0 else RegionSize(prog[0]) + RegionsSize(prog[1..])
  }

  /**
   * `t'` is `t` with `n` nodes appended and, on the earlier nodes, no title,
   * parent or state changed.
   */
  ghost predicate Grown(t: TimingTree, t': TimingTree, n: nat)
  {
    && WellFormed(t') && t'.name == t.name && |t'.arena| == |t.arena| + n
    && forall k :: 0 <= k < |t.arena| ==>
         t'.arena[k].title == t.arena[k].title && t'.arena[k].parent == t.arena[k].parent
         && t'.arena[k].state == t.arena[k].state
  }

  /**
   * `addTimeNode`: open the region at the cursor, run the action (its nested
   * regions), then complete the opened node with the action's result.
   */
  function AddTimeNode(t: TimingTree, r: Region): (res: Result<TimingTree, NodeError>)
    requires WellFormed(t)
    ensures res.Success? ==> Grown(t, res.value, RegionSize(r))
    ensures res.Success? ==> res.value.arena[|t.arena|].title == r.title
    ensures res.Success? ==> res.value.arena[|t.arena|].state == r.outcome
    decreases r, 1
  {
    var step :- IncCurrentNode(t, r.title);
    var t1 := step.0;
    var n := step.1;
    var t2 :- RunRegions(t1, r.body);
    var a3 :- CompleteState(t2.arena, n, r.outcome);
    Success(t2.(arena := a3))
  }

  /** Run a sequence of `addTimeNode` calls, one after the other. */
  function RunRegions(t: TimingTree, prog: seq<Region>): (res: Result<TimingTree, NodeError>)
    requires WellFormed(t)
    ensures res.Success? ==> Grown(t, res.value, RegionsSize(prog))
    decreases prog, 0
  {
    if prog == [] then Success(t)
    else
      var t1 :- AddTimeNode(t, prog[0]);
      RunRegions(t1, prog[1..])
  }

  /** The tree a region describes: its title, its outcome and its nested regions' trees. */
  function RegionCell(r: Region): Tree<NodeState>
    decreases r, 1
  {
    Tree(r.title, r.outcome, RegionCells(r.body))
  }

  function RegionCells(prog: seq<Region>): (r: seq<Tree<NodeState>>)
    ensures |r| == |prog|
    decreases prog, 0
  {
    if prog == [] then [] else [RegionCell(prog[0])] + RegionCells(prog[1..])
  }

  // ---------------------------------------------------------------------------
  // Correctness of the implicit cursor

  /**
   * Going from `t` to `t'` added the trees `cells` as the last children of
   * the open scope `o`, changed no other earlier node, and left `o` the
   * nearest `Active` node above the cursor.
   */
  ghost predicate ExtendsScope(t: TimingTree, t': TimingTree, o: nat, cells: seq<Tree<NodeState>>)
  {
    var a, a' := t.arena, t'.arena;
    && WellFormed(t) && WellFormed(t') && o < |a| <= |a'|
    && (forall k :: 0 <= k < |a| && k != o ==> a'[k] == a[k])
    && a'[o].(children := a[o].children) == a[o]
    && |a[o].children| <= |a'[o].children|
    && a'[o].children[..|a[o].children|] == a[o].children
    && Subtrees(a', a'[o].children[|a[o].children|..]) == cells
    && NearestActive(a', t'.cursor) == Some(o)
  }

  lemma ExtendsScopeTrans(t: TimingTree, t1: TimingTree, t2: TimingTree, o: nat, c1: seq<Tree<NodeState>>, c2: seq<Tree<NodeState>>)
    requires ExtendsScope(t, t1, o, c1) && ExtendsScope(t1, t2, o, c2)
    ensures ExtendsScope(t, t2, o, c1 + c2)
  {
    var a, a1, a2 := t.arena, t1.arena, t2.arena;
    var A, B, C := a[o].children, a1[o].children, a2[o].children;
    PrefixChain(A, B, C);
    var new1, new2 := B[|A|..], C[|B|..];
    forall k | 0 <= k < |new1|
      ensures o < new1[k] < |a1|
    {
      assert new1[k] == B[|A| + k];
    }
    SubtreesFrame(a1, a2, o, new1);
    SubtreesAppend(a2, new1, new2);
  }

  lemma PrefixChain(A: seq<nat>, B: seq<nat>, C: seq<nat>)
    requires |A| <= |B| <= |C| && B[..|A|] == A && C[..|B|] == B
    ensures C[..|A|] == A && C[|A|..] == B[|A|..] + C[|B|..]
  {
    assert C[..|A|] == C[..|B|][..|A|];
  }

  /** Subtrees below `o` do not see a change confined to `o` itself. */
  lemma SubtreesFrame(a: Arena, a': Arena, o: nat, ids: seq<nat>)
    requires Valid(a) && Valid(a') && o < |a| <= |a'|
    requires forall k :: 0 <= k < |a| && k != o ==> a'[k] == a[k]
    requires forall k :: 0 <= k < |ids| ==> o < ids[k] < |a|
    ensures Subtrees(a', ids) == Subtrees(a, ids)
  {
    forall k | 0 <= k < |ids|
      ensures Subtree(a', ids[k]) == Subtree(a, ids[k])
    {
      SubtreeFrame(a, a', ids[k]);
    }
  }

  lemma SubtreesAppend(a: Arena, x: seq<nat>, y: seq<nat>)
    requires Valid(a) && (forall k :: 0 <= k < |x| ==> x[k] < |a|) && (forall k :: 0 <= k < |y| ==> y[k] < |a|)
    ensures Subtrees(a, x + y) == Subtrees(a, x) + Subtrees(a, y)
  {
  }

  /**
   * `addTimeNode` at a cursor whose open scope is `o` always succeeds, adds
   * exactly the region's tree as the last child of `o`, and leaves `o` open.
   */
  lemma {:induction false} AddTimeNodeBuildsRegion(t: TimingTree, r: Region, o: nat)
    requires WellFormed(t) && NearestActive(t.arena, t.cursor) == Some(o)
    ensures AddTimeNode(t, r).Success?
    ensures ExtendsScope(t, AddTimeNode(t, r).value, o, [RegionCell(r)])
    decreases r, 1
  {
    NextAppendsToNearestActive(t.arena, t.cursor, r.title);
    var step := IncCurrentNode(t, r.title).value;
    var t1, n := step.0, step.1;
    RunRegionsBuildsForest(t1, r.body, n);
    var t2 := RunRegions(t1, r.body).value;
    var a3 := CompleteState(t2.arena, n, r.outcome).value;
    CloseScope(t, t1, t2, t2.(arena := a3), n, o, r.title, r.outcome, RegionCells(r.body));
  }

  /**
   * Opening `n` under `o`, filling it with `cells` and completing it with `s`
   * extends the scope `o` by the single tree of `n`.
   */
  lemma CloseScope(t: TimingTree, t1: TimingTree, t2: TimingTree, t3: TimingTree, n: nat, o: nat,
                   title: string, s: Completed, cells: seq<Tree<NodeState>>)
    requires WellFormed(t) && AppendedChild(t.arena, t1.arena, n, o, title)
    requires t1.cursor == n && ExtendsScope(t1, t2, n, cells)
    requires t3.cursor == t2.cursor && Valid(t3.arena) && |t3.arena| == |t2.arena|
    requires t3.arena[n] == t2.arena[n].(state := s)
    requires forall k :: 0 <= k < |t2.arena| && k != n ==> t3.arena[k] == t2.arena[k]
    ensures ExtendsScope(t, t3, o, [Tree(title, s, cells)])
  {
    var a, a1, a2, a3 := t.arena, t1.arena, t2.arena, t3.arena;
    assert a1[n].children == [];
    assert a2[n].children[0..] == a2[n].children;
    CompletedSubtree(a2, a3, n, s);
    CompletingScopeMovesUp(a2, a3, t2.cursor, n, o);
    assert a3[o].children[|a[o].children|..] == [n];
  }

  /** Completing node `n` changes only the state at the top of its subtree. */
  lemma CompletedSubtree(a: Arena, a': Arena, n: nat, s: NodeState)
    requires Valid(a) && Valid(a') && n < |a| == |a'|
    requires a'[n] == a[n].(state := s)
    requires forall k :: 0 <= k < |a| && k != n ==> a'[k] == a[k]
    ensures Subtree(a', n) == Tree(a[n].title, s, Subtrees(a, a[n].children))
  {
    var ids := a[n].children;
    forall k | 0 <= k < |ids|
      ensures Subtree(a', ids[k]) == Subtree(a, ids[k])
    {
      SubtreeFrame(a, a', ids[k]);
    }
  }

  /**
   * Running regions at a cursor whose open scope is `o` always succeeds and
   * adds exactly their trees, in call order, as the last children of `o`.
   */
  lemma {:induction false} RunRegionsBuildsForest(t: TimingTree, prog: seq<Region>, o: nat)
    requires WellFormed(t) && NearestActive(t.arena, t.cursor) == Some(o)
    ensures RunRegions(t, prog).Success?
    ensures ExtendsScope(t, RunRegions(t, prog).value, o, RegionCells(prog))
    decreases prog, 0
  {
    if prog == [] {
      var A := t.arena[o].children;
      assert A[|A|..] == [];
    } else {
      AddTimeNodeBuildsRegion(t, prog[0], o);
      var t1 := AddTimeNode(t, prog[0]).value;
      RunRegionsBuildsForest(t1, prog[1..], o);
      ExtendsScopeTrans(t, t1, RunRegions(t1, prog[1..]).value, o, [RegionCell(prog[0])], RegionCells(prog[1..]));
    }
  }

  /**
   * A fresh tree after a benchmark action's `addTimeNode` calls: the root is
   * still `Active` (nothing but the run loop completes it) and its children
   * are exactly the top-level calls' trees, in call order, each node holding
   * the children its own action created.
   */
  lemma BenchActionBuildsItsTree(name: string, prog: seq<Region>)
    ensures RunRegions(Create(name), prog).Success?
    ensures Subtree(RunRegions(Create(name), prog).value.arena, 0) == Tree(name, Active, RegionCells(prog))
  {
    var t := Create(name);
    RunRegionsBuildsForest(t, prog, 0);
    var a' := RunRegions(t, prog).value.arena;
    assert a'[0].children[0..] == a'[0].children;
    assert Subtree(a', 0).children == Subtrees(a', a'[0].children);
  }

  /** A benchmark action with no timed regions leaves a root-only tree. */
  lemma EmptyActionLeavesRootOnly(name: string)
    ensures RunRegions(Create(name), []) == Success(Create(name))
    ensures Subtree(Create(name).arena, 0) == Tree(name, Active, [])
  {
  }

  /** Once the cursor has no `Active` node above it (the root is closed), `addTimeNode` throws. */
  lemma AddTimeNodeAfterRootClosedThrows(t: TimingTree, r: Region)
    requires WellFormed(t) && NearestActive(t.arena, t.cursor).None?
    ensures AddTimeNode(t, r) == Failure(NoOpenScope)
  {
    NextAppendsToNearestActive(t.arena, t.cursor, r.title);
  }

  // ---------------------------------------------------------------------------
  // Call order and completion order

  /** What the benchmark observes while an action runs: a region opening or being completed. */
  datatype Event = Opened(title: string) | Closed(title: string)

  /** The events of a region in execution order: it opens, its action runs, it completes. */
  function RegionTrace(r: Region): seq<Event>
    decreases r, 1
  {
    [Opened(r.title)] + Trace(r.body) + [Closed(r.title)]
  }

  function Trace(prog: seq<Region>): seq<Event>
    decreases prog, 0
  {
    if prog == [] then [] else RegionTrace(prog[0]) + Trace(prog[1..])
  }

  /** The titles of the opened regions, in the order they opened. */
  function OpenOrder(evs: seq<Event>): seq<string>
  {
    if evs == [] then []
    else (if evs[0].Opened? then [evs[0].title] else []) + OpenOrder(evs[1..])
  }

  /** The titles of the completed regions, in the order they completed. */
  function CompletionOrder(evs: seq<Event>): seq<string>
  {
    if evs == [] then []
    else (if evs[0].Closed? then [evs[0].title] else []) + CompletionOrder(evs[1..])
  }

  lemma OrdersAppend(x: seq<Event>, y: seq<Event>)
    ensures OpenOrder(x + y) == OpenOrder(x) + OpenOrder(y)
    ensures CompletionOrder(x + y) == CompletionOrder(x) + CompletionOrder(y)
  {
    OpenOrderAppend(x, y);
    CompletionOrderAppend(x, y);
  }

  lemma {:induction false} OpenOrderAppend(x: seq<Event>, y: seq<Event>)
    ensures OpenOrder(x + y) == OpenOrder(x) + OpenOrder(y)
    decreases |x|
  {
    if x == [] {
      assert x + y == y;
    } else {
      var z := x + y;
      assert z[0] == x[0] && z[1..] == x[1..] + y;
      OpenOrderAppend(x[1..], y);
    }
  }

  lemma {:induction false} CompletionOrderAppend(x: seq<Event>, y: seq<Event>)
    ensures CompletionOrder(x + y) == CompletionOrder(x) + CompletionOrder(y)
    decreases |x|
  {
    if x == [] {
      assert x + y == y;
    } else {
      var z := x + y;
      assert z[0] == x[0] && z[1..] == x[1..] + y;
      CompletionOrderAppend(x[1..], y);
    }
  }

  /** The preorder of a region's tree lists titles in open order, the postorder in completion order. */
  lemma {:induction false} RegionOrders(r: Region)
    ensures Titles(Flatten(RegionCell(r), Preorder)) == OpenOrder(RegionTrace(r))
    ensures Titles(Flatten(RegionCell(r), Postorder)) == CompletionOrder(RegionTrace(r))
    decreases r, 1
  {
    RegionsOrders(r.body);
    RegionTraceOrders(r);
    RootTitles(RegionCell(r));
  }

  lemma {:induction false} RegionsOrders(prog: seq<Region>)
    ensures Titles(FlattenAll(RegionCells(prog), Preorder)) == OpenOrder(Trace(prog))
    ensures Titles(FlattenAll(RegionCells(prog), Postorder)) == CompletionOrder(Trace(prog))
    decreases prog, 0
  {
    if prog != [] {
      RegionOrders(prog[0]);
      RegionsOrders(prog[1..]);
      OrdersAppend(RegionTrace(prog[0]), Trace(prog[1..]));
      var cs := RegionCells(prog);
      assert cs[0] == RegionCell(prog[0]) && cs[1..] == RegionCells(prog[1..]);
      TitlesAppend(Flatten(cs[0], Preorder), FlattenAll(cs[1..], Preorder));
      TitlesAppend(Flatten(cs[0], Postorder), FlattenAll(cs[1..], Postorder));
    }
  }

  /**
   * For any properly nested run of `addTimeNode` calls from a fresh tree, the
   * preorder of the tree is the root followed by the regions in the order they
   * opened, and the postorder is the regions in the order they completed
   * followed by the root.
   */
  lemma TraversalsFollowExecution(name: string, prog: seq<Region>)
    ensures RunRegions(Create(name), prog).Success?
    ensures var root := Subtree(RunRegions(Create(name), prog).value.arena, 0);
      && Titles(Flatten(root, Preorder)) == [name] + OpenOrder(Trace(prog))
      && Titles(Flatten(root, Postorder)) == CompletionOrder(Trace(prog)) + [name]
  {
    BenchActionBuildsItsTree(name, prog);
    ProgramOrders(name, prog);
  }

  /** The orders of the tree a program builds under a root `name`. */
  lemma ProgramOrders(name: string, prog: seq<Region>)
    ensures var root := Tree(name, Active, RegionCells(prog));
      && Titles(Flatten(root, Preorder)) == [name] + OpenOrder(Trace(prog))
      && Titles(Flatten(root, Postorder)) == CompletionOrder(Trace(prog)) + [name]
  {
    RegionsOrders(prog);
    RootTitles(Tree(name, Active, RegionCells(prog)));
  }

  // ---------------------------------------------------------------------------
  // The fixtures of the benchmark tests

  /** A region whose action times nothing and completes with outcome `o`. */
  function TimedLeaf(title: string, o: Completed): Region
  {
    Region(title, [], o)
  }

  /** A region opens before and completes after everything its action does. */
  lemma RegionTraceOrders(r: Region)
    ensures OpenOrder(RegionTrace(r)) == [r.title] + OpenOrder(Trace(r.body))
    ensures CompletionOrder(RegionTrace(r)) == CompletionOrder(Trace(r.body)) + [r.title]
  {
    OrdersAppend([Opened(r.title)], Trace(r.body));
    OrdersAppend([Opened(r.title)] + Trace(r.body), [Closed(r.title)]);
  }

  /** The orders of a sequence of regions: the first region's, then the rest's. */
  lemma TraceConsOrders(r: Region, rest: seq<Region>)
    ensures OpenOrder(Trace([r] + rest)) == OpenOrder(RegionTrace(r)) + OpenOrder(Trace(rest))
    ensures CompletionOrder(Trace([r] + rest)) == CompletionOrder(RegionTrace(r)) + CompletionOrder(Trace(rest))
  {
    assert ([r] + rest)[1..] == rest;
    OrdersAppend(RegionTrace(r), Trace(rest));
  }

  /** Orders of a region, given those of its body. */
  lemma Step(r: Region, open: seq<string>, done: seq<string>)
    requires OpenOrder(Trace(r.body)) == open && CompletionOrder(Trace(r.body)) == done
    ensures OpenOrder(RegionTrace(r)) == [r.title] + open
    ensures CompletionOrder(RegionTrace(r)) == done + [r.title]
  {
    RegionTraceOrders(r);
  }

  /** Orders of a sequence of regions, given those of its first region and of the rest. */
  lemma Cons(r: Region, rest: seq<Region>, o1: seq<string>, d1: seq<string>, o2: seq<string>, d2: seq<string>)
    requires OpenOrder(RegionTrace(r)) == o1 && CompletionOrder(RegionTrace(r)) == d1
    requires OpenOrder(Trace(rest)) == o2 && CompletionOrder(Trace(rest)) == d2
    ensures OpenOrder(Trace([r] + rest)) == o1 + o2 && CompletionOrder(Trace([r] + rest)) == d1 + d2
  {
    TraceConsOrders(r, rest);
  }

  lemma LeafOrders(t: string, o: Completed)
    ensures OpenOrder(RegionTrace(TimedLeaf(t, o))) == [t] && CompletionOrder(RegionTrace(TimedLeaf(t, o))) == [t]
  {
    Step(TimedLeaf(t, o), [], []);
  }

  lemma SingleOrders(r: Region)
    ensures OpenOrder(Trace([r])) == OpenOrder(RegionTrace(r))
    ensures CompletionOrder(Trace([r])) == CompletionOrder(RegionTrace(r))
  {
    TraceConsOrders(r, []);
  }

  /** A region whose action is one leaf region. */
  lemma ScopeOfLeafOrders(t: string, u: string, o: Completed)
    ensures OpenOrder(RegionTrace(Region(t, [TimedLeaf(u, o)], o))) == [t, u]
    ensures CompletionOrder(RegionTrace(Region(t, [TimedLeaf(u, o)], o))) == [u, t]
  {
    LeafOrders(u, o);
    SingleOrders(TimedLeaf(u, o));
    Step(Region(t, [TimedLeaf(u, o)], o), [u], [u]);
  }

  // The COMPLEX benchmark of the tests:
  // A1 { B1, B2, B3 { C1 { D1, D2 { E1 } } }, B4 { C2, C3 }, B5 }, A2.

  function ComplexB3(o: Completed): Region
  {
    Region("B3", [Region("C1", [TimedLeaf("D1", o), Region("D2", [TimedLeaf("E1", o)], o)], o)], o)
  }

  function ComplexB4(o: Completed): Region
  {
    Region("B4", [TimedLeaf("C2", o), TimedLeaf("C3", o)], o)
  }

  function ComplexA1(o: Completed): Region
  {
    Region("A1", [TimedLeaf("B1", o), TimedLeaf("B2", o), ComplexB3(o), ComplexB4(o), TimedLeaf("B5", o)], o)
  }

  function ComplexProgram(o: Completed): seq<Region>
  {
    [ComplexA1(o), TimedLeaf("A2", o)]
  }

  lemma OrdersC1(o: Completed)
    ensures var c1 := ComplexB3(o).body[0];
      && OpenOrder(RegionTrace(c1)) == ["C1", "D1", "D2", "E1"]
      && CompletionOrder(RegionTrace(c1)) == ["D1", "E1", "D2", "C1"]
  {
    var d2 := Region("D2", [TimedLeaf("E1", o)], o);
    ScopeOfLeafOrders("D2", "E1", o);
    SingleOrders(d2);
    LeafOrders("D1", o);
    Cons(TimedLeaf("D1", o), [d2], ["D1"], ["D1"], ["D2", "E1"], ["E1", "D2"]);
    var c1 := ComplexB3(o).body[0];
    assert c1.body == [TimedLeaf("D1", o)] + [d2];
    Step(c1, ["D1", "D2", "E1"], ["D1", "E1", "D2"]);
  }

  lemma OrdersB3(o: Completed)
    ensures OpenOrder(RegionTrace(ComplexB3(o))) == ["B3", "C1", "D1", "D2", "E1"]
    ensures CompletionOrder(RegionTrace(ComplexB3(o))) == ["D1", "E1", "D2", "C1", "B3"]
  {
    var b3 := ComplexB3(o);
    OrdersC1(o);
    SingleOrders(b3.body[0]);
    assert b3.body == [b3.body[0]];
    Step(b3, ["C1", "D1", "D2", "E1"], ["D1", "E1", "D2", "C1"]);
  }

  lemma OrdersB4(o: Completed)
    ensures OpenOrder(RegionTrace(ComplexB4(o))) == ["B4", "C2", "C3"]
    ensures CompletionOrder(RegionTrace(ComplexB4(o))) == ["C2", "C3", "B4"]
  {
    LeafOrders("C3", o);
    SingleOrders(TimedLeaf("C3", o));
    LeafOrders("C2", o);
    Cons(TimedLeaf("C2", o), [TimedLeaf("C3", o)], ["C2"], ["C2"], ["C3"], ["C3"]);
    assert ComplexB4(o).body == [TimedLeaf("C2", o)] + [TimedLeaf("C3", o)];
    Step(ComplexB4(o), ["C2", "C3"], ["C2", "C3"]);
  }

  /** A1's action, as its regions one after the other. */
  lemma A1BodySplits(o: Completed)
    ensures ComplexA1(o).body
      == [TimedLeaf("B1", o)] + ([TimedLeaf("B2", o)] + ([ComplexB3(o)] + ([ComplexB4(o)] + [TimedLeaf("B5", o)])))
  {
  }

  lemma OrdersFromB4(o: Completed)
    ensures var rest := [ComplexB4(o)] + [TimedLeaf("B5", o)];
      && OpenOrder(Trace(rest)) == ["B4", "C2", "C3", "B5"]
      && CompletionOrder(Trace(rest)) == ["C2", "C3", "B4", "B5"]
  {
    LeafOrders("B5", o);
    SingleOrders(TimedLeaf("B5", o));
    OrdersB4(o);
    Cons(ComplexB4(o), [TimedLeaf("B5", o)], ["B4", "C2", "C3"], ["C2", "C3", "B4"], ["B5"], ["B5"]);
  }

  lemma OrdersFromB3(o: Completed)
    ensures var rest := [ComplexB3(o)] + ([ComplexB4(o)] + [TimedLeaf("B5", o)]);
      && OpenOrder(Trace(rest)) == ["B3", "C1", "D1", "D2", "E1", "B4", "C2", "C3", "B5"]
      && CompletionOrder(Trace(rest)) == ["D1", "E1", "D2", "C1", "B3", "C2", "C3", "B4", "B5"]
  {
    OrdersFromB4(o);
    OrdersB3(o);
    Cons(ComplexB3(o), [ComplexB4(o)] + [TimedLeaf("B5", o)],
      ["B3", "C1", "D1", "D2", "E1"], ["D1", "E1", "D2", "C1", "B3"],
      ["B4", "C2", "C3", "B5"], ["C2", "C3", "B4", "B5"]);
  }

  lemma OrdersFromB2(o: Completed)
    ensures var rest := [TimedLeaf("B2", o)] + ([ComplexB3(o)] + ([ComplexB4(o)] + [TimedLeaf("B5", o)]));
      && OpenOrder(Trace(rest)) == ["B2", "B3", "C1", "D1", "D2", "E1", "B4", "C2", "C3", "B5"]
      && CompletionOrder(Trace(rest)) == ["B2", "D1", "E1", "D2", "C1", "B3", "C2", "C3", "B4", "B5"]
  {
    OrdersFromB3(o);
    LeafOrders("B2", o);
    Cons(TimedLeaf("B2", o), [ComplexB3(o)] + ([ComplexB4(o)] + [TimedLeaf("B5", o)]), ["B2"], ["B2"],
      ["B3", "C1", "D1", "D2", "E1", "B4", "C2", "C3", "B5"],
      ["D1", "E1", "D2", "C1", "B3", "C2", "C3", "B4", "B5"]);
  }

  lemma OrdersA1Body(o: Completed)
    ensures var body := ComplexA1(o).body;
      && OpenOrder(Trace(body)) == ["B1", "B2", "B3", "C1", "D1", "D2", "E1", "B4", "C2", "C3", "B5"]
      && CompletionOrder(Trace(body)) == ["B1", "B2", "D1", "E1", "D2", "C1", "B3", "C2", "C3", "B4", "B5"]
  {
    OrdersFromB2(o);
    LeafOrders("B1", o);
    Cons(TimedLeaf("B1", o), [TimedLeaf("B2", o)] + ([ComplexB3(o)] + ([ComplexB4(o)] + [TimedLeaf("B5", o)])), ["B1"], ["B1"],
      ["B2", "B3", "C1", "D1", "D2", "E1", "B4", "C2", "C3", "B5"],
      ["B2", "D1", "E1", "D2", "C1", "B3", "C2", "C3", "B4", "B5"]);
    A1BodySplits(o);
  }

  lemma OrdersComplexA1(o: Completed)
    ensures OpenOrder(RegionTrace(ComplexA1(o))) == ["A1", "B1", "B2", "B3", "C1", "D1", "D2", "E1", "B4", "C2", "C3", "B5"]
    ensures CompletionOrder(RegionTrace(ComplexA1(o))) == ["B1", "B2", "D1", "E1", "D2", "C1", "B3", "C2", "C3", "B4", "B5", "A1"]
  {
    OrdersA1Body(o);
    Step(ComplexA1(o),
      ["B1", "B2", "B3", "C1", "D1", "D2", "E1", "B4", "C2", "C3", "B5"],
      ["B1", "B2", "D1", "E1", "D2", "C1", "B3", "C2", "C3", "B4", "B5"]);
  }

  lemma ComplexOrders(o: Completed)
    ensures OpenOrder(Trace(ComplexProgram(o))) == ["A1", "B1", "B2", "B3", "C1", "D1", "D2", "E1", "B4", "C2", "C3", "B5", "A2"]
    ensures CompletionOrder(Trace(ComplexProgram(o))) == ["B1", "B2", "D1", "E1", "D2", "C1", "B3", "C2", "C3", "B4", "B5", "A1", "A2"]
  {
    OrdersComplexA1(o);
    LeafOrders("A2", o);
    SingleOrders(TimedLeaf("A2", o));
    Cons(ComplexA1(o), [TimedLeaf("A2", o)],
      ["A1", "B1", "B2", "B3", "C1", "D1", "D2", "E1", "B4", "C2", "C3", "B5"],
      ["B1", "B2", "D1", "E1", "D2", "C1", "B3", "C2", "C3", "B4", "B5", "A1"],
      ["A2"], ["A2"]);
    assert ComplexProgram(o) == [ComplexA1(o)] + [TimedLeaf("A2", o)];
  }

  /**
   * The tree the COMPLEX benchmark builds under its root `name` lists its
   * titles in the call order and the completion order that the traversal
   * tests of the benchmark expect (there the root is named "COMPLEX").
   */
  lemma ComplexFixtureOrders(name: string, o: Completed)
    ensures RunRegions(Create(name), ComplexProgram(o)).Success?
    ensures var root := Subtree(RunRegions(Create(name), ComplexProgram(o)).value.arena, 0);
      && Titles(Flatten(root, Preorder))
         == [name] + ["A1", "B1", "B2", "B3", "C1", "D1", "D2", "E1", "B4", "C2", "C3", "B5", "A2"]
      && Titles(Flatten(root, Postorder))
         == ["B1", "B2", "D1", "E1", "D2", "C1", "B3", "C2", "C3", "B4", "B5", "A1", "A2"] + [name]
  {
    ComplexOrders(o);
    TraversalsFollowExecution(name, ComplexProgram(o));
  }

  /** The SINGLE benchmark: one region "A" under the root. */
  lemma SingleFixtureOrders(name: string, o: Completed)
    ensures RunRegions(Create(name), [TimedLeaf("A", o)]).Success?
    ensures var root := Subtree(RunRegions(Create(name), [TimedLeaf("A", o)]).value.arena, 0);
      && Titles(Flatten(root, Preorder)) == [name] + ["A"]
      && Titles(Flatten(root, Postorder)) == ["A"] + [name]
  {
    LeafOrders("A", o);
    SingleOrders(TimedLeaf("A", o));
    TraversalsFollowExecution(name, [TimedLeaf("A", o)]);
  }
}
