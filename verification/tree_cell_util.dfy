/**
 * api/treecell/data/TreeCellUtil.kt and MutableTimeCell.kt: the mutable copy
 * of a measured tree used while averaging, the conversions between the two,
 * and `addTimeState`, which merges another iteration's state into a cell.
 *
 * `TimeCell` and `MutableTimeCell` have the same title, state and children,
 * so both are `Tree<CellState>`; what the source does by mutation is here a
 * function returning the new value.
 */
module TreeCellUtil {
  import opened TreeCell
  import opened TreeCellState

  /** `getPrecedence`: `Error` < `Invalid` < `Complete`; only `Complete` ranks top and only `Error` ranks bottom. */
  function Precedence(s: CellState): (r: nat)
    ensures r <= 2
    ensures r == 2 <==> s.Complete?
    ensures r == 0 <==> s == Error
  {
    match s
    case Error => 0
    case Invalid => 1
    case Complete(_) => 2
  }

  function Max(x: nat, y: nat): nat
  {
    if x < y then y else x
  }

  /** What a state adds to a running sum of durations: its duration when `Complete`, else nothing. */
  function Contribution(s: CellState): int
  {
    if s.Complete? then s.duration else 0
  }

  /** Below `Complete` a state is fixed by its precedence. */
  lemma PrecedenceDeterminesIncomplete(x: CellState, y: CellState)
    requires !x.Complete? && Precedence(x) == Precedence(y)
    ensures x == y
  {
  }

  /**
   * `addTimeState`: two `Complete` states add up their durations; otherwise
   * the cell takes the incoming state exactly when it ranks strictly higher.
   * Either way the result ranks as the higher of the two, and when it is
   * `Complete` its duration is the sum of the `Complete` durations merged.
   */
  function AddTimeState(current: CellState, incoming: CellState): (r: CellState)
    ensures Precedence(r) == Max(Precedence(current), Precedence(incoming))
    ensures r.Complete? ==> r.duration == Contribution(current) + Contribution(incoming)
  {
    if current.Complete? && incoming.Complete? then
      ForceSetDuration(current, current.duration + incoming.duration)
    else if Precedence(current) < Precedence(incoming) then
      Clone(incoming)
    else
      current
  }

  /** Merging is commutative: the order in which two states meet does not matter. */
  lemma AddTimeStateCommutes(x: CellState, y: CellState)
    ensures AddTimeState(x, y) == AddTimeState(y, x)
  {
    var r, r' := AddTimeState(x, y), AddTimeState(y, x);
    if !r.Complete? {
      PrecedenceDeterminesIncomplete(r, r');
    }
  }

  /** Merging is associative: folding iterations in any grouping gives the same state. */
  lemma AddTimeStateAssociates(x: CellState, y: CellState, z: CellState)
    ensures AddTimeState(AddTimeState(x, y), z) == AddTimeState(x, AddTimeState(y, z))
  {
    var r, r' := AddTimeState(AddTimeState(x, y), z), AddTimeState(x, AddTimeState(y, z));
    if !r.Complete? {
      PrecedenceDeterminesIncomplete(r, r');
    }
  }

  /** Merging the same non-`Complete` state twice changes nothing the second time. */
  lemma AddTimeStateIdempotent(s: CellState, x: CellState)
    requires !x.Complete?
    ensures AddTimeState(AddTimeState(s, x), x) == AddTimeState(s, x)
  {
    var r, r' := AddTimeState(s, x), AddTimeState(AddTimeState(s, x), x);
    if !r.Complete? {
      PrecedenceDeterminesIncomplete(r, r');
    }
  }

  /** `Error`, the state a new `MutableTimeCell` starts with, changes nothing when merged in either side. */
  lemma ErrorIsNeutral(s: CellState)
    ensures AddTimeState(Error, s) == s && AddTimeState(s, Error) == s
  {
  }

  /** A copy of a cell with its state cloned and no children; `convert` supplies the children. */
  function CloneCell(c: Tree<CellState>): Tree<CellState>
  {
    Tree(c.title, Clone(c.state), [])
  }

  /** A cell with the same title and state, as `toTimeCell` builds it. */
  function ShareCell(c: Tree<CellState>): Tree<CellState>
  {
    Tree(c.title, c.state, [])
  }

  /** `toMutableTimeCell`: a copy of the whole tree, node for node, with every state cloned. */
  function ToMutableTimeCell(t: Tree<CellState>): (r: Tree<CellState>)
    ensures r == t
  {
    ConvertIdentity(t, CloneCell);
    Convert(t, CloneCell)
  }

  /** `toTimeCell`: the immutable tree with the same titles, states and shape. */
  function ToTimeCell(t: Tree<CellState>): (r: Tree<CellState>)
    ensures r == t
  {
    ConvertIdentity(t, ShareCell);
    Convert(t, ShareCell)
  }
}
