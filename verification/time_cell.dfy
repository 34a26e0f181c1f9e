/**
 * api/treecell/data/TimeCell.kt: the immutable measured cell, its optional
 * duration, and the conversion of a finished timing tree into cells.
 */
module TimeCell {
  import opened Wrappers
  import opened TreeCell
  import opened TreeCellState
  import TimeNode

  /** `duration`: present exactly when the state is `Complete`. */
  function Duration(cell: Tree<CellState>): (r: Option<int>)
    ensures r.Some? <==> cell.state.Complete?
    ensures r.Some? ==> cell.state == Complete(r.value)
  {
    if cell.state.Complete? then Some(cell.state.duration) else None
  }

  /**
   * The state mapping of `TimeNode.toTimeCell`: a completed time stays
   * `Complete`, `Error` stays `Error`, and everything else (an explicit
   * `Invalid` or a node still `Active`) becomes `Invalid`.
   */
  function ToCellState(s: TimeNode.NodeState): (r: CellState)
    ensures r.Complete? <==> s.Complete?
    ensures r.Complete? ==> r.duration == s.time
    ensures r == Error <==> s == TimeNode.Error
  {
    match s
    case Complete(time) => Complete(time)
    case Error => Error
    case _ => Invalid
  }

  /** `toTimeCell`: the same title, the mapped state, and the children converted in order. */
  function NodeToTimeCell(t: Tree<TimeNode.NodeState>): (r: Tree<CellState>)
    ensures r.title == t.title && r.state == ToCellState(t.state)
    ensures SameShape(t, r)
    decreases t, 1
  {
    Tree(t.title, ToCellState(t.state), NodesToTimeCells(t.children))
  }

  /** `toTimeCells`: each node converted, in order. */
  function NodesToTimeCells(ts: seq<Tree<TimeNode.NodeState>>): (r: seq<Tree<CellState>>)
    ensures |r| == |ts|
    ensures forall i :: 0 <= i < |ts| ==> r[i] == NodeToTimeCell(ts[i])
    decreases ts, 0
  {
    if ts == [] then [] else [NodeToTimeCell(ts[0])] + NodesToTimeCells(ts[1..])
  }

  /** Relabel a single node's state for `convert`. */
  function NodeCell(t: Tree<TimeNode.NodeState>): Tree<CellState>
  {
    Tree(t.title, ToCellState(t.state), [])
  }

  /** The hand-written recursion of `toTimeCell` is the generic `convert` with the state mapping. */
  lemma {:induction false} NodeToTimeCellIsConvert(t: Tree<TimeNode.NodeState>)
    ensures NodeToTimeCell(t) == Convert(t, NodeCell)
    decreases t
  {
    forall i | 0 <= i < |t.children| {
      NodeToTimeCellIsConvert(t.children[i]);
    }
    assert NodeToTimeCell(t).children == Convert(t, NodeCell).children;
  }

  /**
   * In either traversal, the cells of the converted tree are the nodes of
   * the timing tree one for one, in the same positions, with the same titles
   * and the mapped states.
   */
  lemma NodeToTimeCellTraversal(t: Tree<TimeNode.NodeState>, order: TraversalType)
    ensures var p, q := Flatten(t, order), Flatten(NodeToTimeCell(t), order);
      && |q| == |p|
      && forall i :: 0 <= i < |p| ==> q[i].title == p[i].title && q[i].state == ToCellState(p[i].state)
  {
    NodeToTimeCellIsConvert(t);
    ConvertFlatten(t, NodeCell, order);
  }
}
