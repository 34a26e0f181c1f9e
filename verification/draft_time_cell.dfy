/**
 * api/timecell/TimeCell.kt: the earlier measured-cell type, which the parser
 * does not use. Its state has no `Error`; a duration can be read back in
 * whole milliseconds, seconds, minutes, hours or days.
 */
module DraftTimeCell {
  import opened Wrappers
  import opened Arith
  import opened TreeCell
  import TreeCellState
  import TimeNode
  import TimeCell
  import FormattedTime

  datatype DraftState = Invalid | Complete(duration: int)

  type DraftCell = Tree<DraftState>

  /** `duration`: present exactly when the state is `Complete`. */
  function Duration(cell: DraftCell): (r: Option<int>)
    ensures r.Some? <==> cell.state.Complete?
    ensures r.Some? ==> cell.state == Complete(r.value)
  {
    if cell.state.Complete? then Some(cell.state.duration) else None
  }

  // `NanosConverter`
  const NanosInDay: int := 86_400_000_000_000
  const NanosInHour: int := 3_600_000_000_000
  const NanosInMinute: int := 60_000_000_000
  const NanosInSecond: int := 1_000_000_000
  const NanosInMilli: int := 1_000_000
  const NanosInMicro: int := 1_000

  /** The getters of the draft `FormattedTime`, each a truncating `Long` division. */
  datatype Getter = TimeInMillis | TimeInSeconds | TimeInMinutes | TimeInHours | TimeInDays

  /** The reporter's unit a getter corresponds to. */
  function UnitOf(g: Getter): FormattedTime.UnitOfTime
  {
    match g
    case TimeInMillis => FormattedTime.Millisecond
    case TimeInSeconds => FormattedTime.Second
    case TimeInMinutes => FormattedTime.Minute
    case TimeInHours => FormattedTime.Hour
    case TimeInDays => FormattedTime.Day
  }

  /**
   * A getter of the draft `FormattedTime`: the draft's constants are the
   * reporter's units, so every getter agrees with the reporter's `format`
   * in the matching unit.
   */
  function Get(duration: int, g: Getter): (r: int)
    ensures r == FormattedTime.Format(duration, UnitOf(g))
  {
    match g
    case TimeInMillis => Quot(duration, NanosInMilli)
    case TimeInSeconds => Quot(duration, NanosInSecond)
    case TimeInMinutes => Quot(duration, NanosInMinute)
    case TimeInHours => Quot(duration, NanosInHour)
    case TimeInDays => Quot(duration, NanosInDay)
  }

  /** Every `NanosConverter` constant, the unused micro one included, is the reporter's unit of that name. */
  lemma ConvertersAreUnits()
    ensures NanosInDay == FormattedTime.InNanos(FormattedTime.Day)
    ensures NanosInHour == FormattedTime.InNanos(FormattedTime.Hour)
    ensures NanosInMinute == FormattedTime.InNanos(FormattedTime.Minute)
    ensures NanosInSecond == FormattedTime.InNanos(FormattedTime.Second)
    ensures NanosInMilli == FormattedTime.InNanos(FormattedTime.Millisecond)
    ensures NanosInMicro == FormattedTime.InNanos(FormattedTime.Microsecond)
  {
  }

  /** `toString`'s time: whole milliseconds of a `Complete` cell, nothing for an `Invalid` one. */
  function FormattedMillis(cell: DraftCell): (r: Option<int>)
    ensures r.Some? <==> cell.state.Complete?
    ensures r.Some? ==> r.value == FormattedTime.Format(cell.state.duration, FormattedTime.Millisecond)
  {
    match Duration(cell)
    case Some(d) => Some(Get(d, TimeInMillis))
    case None => None
  }

  /** The draft state of a timing node: a completed time, or `Invalid` for anything else, `Error` included. */
  function ToDraftState(s: TimeNode.NodeState): (r: DraftState)
    ensures r.Complete? <==> s.Complete?
    ensures r.Complete? ==> r.duration == s.time
  {
    if s.Complete? then Complete(s.time) else Invalid
  }

  /** The draft `toTimeCell`: same titles and shape, draft states. */
  function NodeToDraftCell(t: Tree<TimeNode.NodeState>): (r: DraftCell)
    ensures r.title == t.title && r.state == ToDraftState(t.state)
    ensures SameShape(t, r)
    decreases t, 1
  {
    Tree(t.title, ToDraftState(t.state), NodesToDraftCells(t.children))
  }

  function NodesToDraftCells(ts: seq<Tree<TimeNode.NodeState>>): (r: seq<DraftCell>)
    ensures |r| == |ts|
    ensures forall i :: 0 <= i < |ts| ==> r[i] == NodeToDraftCell(ts[i])
    decreases ts, 0
  {
    if ts == [] then [] else [NodeToDraftCell(ts[0])] + NodesToDraftCells(ts[1..])
  }

  /** Forget the difference between `Error` and `Invalid`. */
  function Demote(s: TreeCellState.CellState): DraftState
  {
    if s.Complete? then Complete(s.duration) else Invalid
  }

  function DemoteCell(c: Tree<TreeCellState.CellState>): DraftCell
  {
    Tree(c.title, Demote(c.state), [])
  }

  /**
   * The two conversions of a timing tree agree except that the draft folds
   * `Error` into `Invalid`: the draft cell is the measured cell with its
   * states demoted.
   */
  lemma {:induction false} DraftIsDemotedTimeCell(t: Tree<TimeNode.NodeState>)
    ensures NodeToDraftCell(t) == Convert(TimeCell.NodeToTimeCell(t), DemoteCell)
    decreases t
  {
    forall i | 0 <= i < |t.children| {
      DraftIsDemotedTimeCell(t.children[i]);
    }
    var d, c := NodeToDraftCell(t), TimeCell.NodeToTimeCell(t);
    assert d.children == Convert(c, DemoteCell).children;
  }
}
