/**
 * api/treecell/TreeCellState.kt: the state a measured cell carries. The
 * source's `Complete` holds a mutable duration (`forceSetDuration`); here
 * states are values, so setting a duration builds a new `Complete`.
 */
module TreeCellState {

  datatype CellState = Invalid | Error | Complete(duration: int)

  /**
   * `clone`: a fresh `Complete` with the same duration, or the same object
   * for the two singletons. As values, the copy equals the original.
   */
  function Clone(s: CellState): (r: CellState)
    ensures r == s
    ensures r.Complete? <==> s.Complete?
  {
    if s.Complete? then Complete(s.duration) else s
  }

  /** `forceSetDuration`: the state stays `Complete` and reads the new duration. */
  function ForceSetDuration(s: CellState, value: int): (r: CellState)
    requires s.Complete?
    ensures r.Complete? && r.duration == value
  {
    s.(duration := value)
  }
}
