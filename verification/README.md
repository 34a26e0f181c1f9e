# Kurenai timing trees and parser, in Dafny

Kurenai is a Kotlin micro-benchmarking library. A benchmark action calls
`time(title) { ... }` blocks, possibly nested. Each call goes through
`TimeTree.addTimeNode`, which grows a tree of `TimeNode`s with an implicit
cursor. At the end of an iteration the tree is converted into an immutable
`TimeCell` tree. The `Parser` indexes each iteration through an
`IterationHolder`, reads cells back by index or title, and averages the
iterations cell by cell.

This project models that core:

- `time_node.dfy`: `TimeNode` as an arena of nodes with parent and child
  indices. It covers the completion setter that refuses a second completion,
  `next` and `findNextParent`.
- `time_tree.dfy`: `TimeTree`, meaning the tree, its reset, `incCurrentNode`
  and `addTimeNode`. A timed action is a `Region`: its title, the nested
  regions its action opens, and the completed state it returns. The main
  theorems are these:
  - running any properly nested program from a fresh tree builds exactly
    that program's tree under the root;
  - preorder is the order in which regions opened, and postorder is the
    order in which they completed;
  - the COMPLEX and SINGLE fixtures of the benchmark tests have the orders
    the tests expect.
- `tree_cell.dfy`: the generic `TreeCell` interface.
  - `flatten` in both orders, with each node adjacent to its subtree;
    the two orders are permutations of each other.
  - `toMap` against a last-wins reference index.
  - `convert`, which keeps the shape and applies its action once per node.
- `tree_cell_state.dfy`, `tree_cell_util.dfy`, `time_cell.dfy`: cell
  states, `clone` and `forceSetDuration`, `addTimeState` (an associative,
  commutative merge), the mutable copy and back, and `TimeNode.toTimeCell`.
- `iteration_holder.dfy`: the single traversal that builds the title map and
  the call-ordered and completion-ordered lists.
- `parser.dfy`: the accessors, `averageCell`, `averageBenchmarkTime` and
  `generateAveragedIteration`. Each averaged node's duration is proved to be
  the truncated mean of the `Complete` samples for its title. Otherwise it is
  the highest-ranking incomplete state.
- `benchmark_config.dfy`: `BenchmarkConfig` validation.
- `formatted_time.dfy`: `UnitOfTime`, `format` and `formatString`, with a
  decimal round trip.
- `draft_time_cell.dfy`, `draft_traversal.dfy`: the earlier `api.timecell`
  cell type, its getters, its `flatten` and its node-keyed `toMap`.

Modelling choices:

- Values replace objects. A `MutableTimeCell` and a `TimeCell` are both
  `Tree<CellState>`, so aliasing between a clone and its original cannot
  arise.
- Durations are `int`. Kotlin's `Long` division truncates toward zero, and
  `Arith.Quot` models it.
- Kotlin exceptions become `Result` failures:
  - a second completion gives `AlreadyComplete`;
  - a missing open ancestor gives `NoOpenScope`;
  - a bad iteration index gives `IndexOutOfBounds`;
  - `first()` of an empty list gives `NoSuchElement`;
  - division by a zero count gives `DivisionByZero`.
- Measured times are inputs. `measureNanoTime` and the clock are not
  modelled: a region's outcome is a parameter.

Where the code and its documentation disagree, the model follows the code:

- `api/timecell/Traversal.kt:17` says `unTrimmed` keeps only nodes with
  children. The code (line 50) keeps every node when `unTrimmed` is true.
- `Parser.AverageCell` reads each cell's duration with `cell.getDuration()`
  (`core/parser/Parser.kt:121`). The cell class declares only the property
  `duration` (`api/treecell/data/TimeCell.kt:11-12`), so that call does not
  resolve as written. The model reads the `duration` property: the
  duration of a `Complete` cell, and nothing for any other.
- The source spells the microsecond suffix `"Î¼s"` (a mis-decoded `"μs"`).
  `FormattedTime.Suffix` returns those characters.

`BenchmarkResult` declares its iterations as `api.timecell.TimeCell`.
`Benchmark.run` fills them with `api.treecell.data.TimeCell` values, and
`Parser` reads them as the latter. The parser is therefore built directly
from the roots of `Tree<CellState>` iterations (`Parser.MakeParser`).

## Model

| member | source | states |
|---|---|---|
| TimeNode.SetState | src/main/kotlin/core/timenode/TimeNode.kt:5-10 | assigning a state fails exactly when the node is already completed; otherwise only that node's state changes |
| TimeNode.CompleteDuration | src/main/kotlin/core/timenode/TimeNode.kt:13-16 | `complete(duration)` returns the duration and leaves the node `Complete(duration)` with no other node touched, or fails with `AlreadyComplete` exactly when the node was already completed |
| TimeNode.CompleteState | src/main/kotlin/core/timenode/TimeNode.kt:18-20 | `complete(state)` sets the given completed state and touches no other node, or fails when the node was already completed |
| TimeNode.SecondCompletionThrows | src/main/kotlin/core/timenode/TimeNode.kt:5-20 | after one successful `complete(state)`, a second completion of the same node fails with `AlreadyComplete`, whether it passes a state or a duration (so `Error` followed by a measured time throws) |
| TimeNode.NearestActive | src/main/kotlin/core/timenode/TimeNode.kt:37-48 | reference definition: the first `Active` node on the path from a node up to the root, or none |
| TimeNode.FindNextParent | src/main/kotlin/core/timenode/TimeNode.kt:37-48 | the first non-completed ancestor strictly above the node; when none exists (the root is reached), the failure `NoOpenScope` |
| TimeNode.AppendChild | src/main/kotlin/core/timenode/TimeNode.kt:25-27 | a fresh `Active` child with the title is appended as the parent's last child; every other node is unchanged |
| TimeNode.Next | src/main/kotlin/core/timenode/TimeNode.kt:23-35 | an `Active` node gets the new node as its last child; otherwise the new node is appended to `findNextParent`'s result; fails only when no ancestor is open |
| TimeNode.NextAppendsToNearestActive | src/main/kotlin/core/timenode/TimeNode.kt:23-48 | `next` succeeds exactly when some node on the path to the root is `Active`, and then appends under the nearest such node |
| TimeNode.CompletingScopeMovesUp | src/main/kotlin/core/timenode/TimeNode.kt:37-43 | completing the nearest open node makes the nearest open node above its parent the new insertion point |
| TimeTree.Create | src/main/kotlin/core/timenode/TimeTree.kt:3-5 | a new tree is a single `Active` root titled with the tree's name, and the cursor is on it |
| TimeTree.ResetTree | src/main/kotlin/core/timenode/TimeTree.kt:10-13 | the reset tree is again a fresh `Active` root with the same name, and the cursor is on it |
| TimeTree.IncCurrentNode | src/main/kotlin/core/timenode/TimeTree.kt:21-24 | it succeeds exactly when `next` does; the cursor moves to the created node, which it returns |
| TimeTree.AddTimeNode | src/main/kotlin/core/timenode/TimeTree.kt:26-30 | on success the tree grows by exactly the region's node count; existing nodes keep their titles and states; the node created first has the region's title and outcome |
| TimeTree.RunRegions | src/main/kotlin/core/timenode/TimeTree.kt:26-30 | a sequence of `addTimeNode` calls grows the tree by exactly the regions' node count without changing existing nodes' titles or states |
| TimeTree.AddTimeNodeBuildsRegion | src/main/kotlin/core/timenode/TimeTree.kt:26-30 | at a cursor whose open scope is `o`, `addTimeNode` succeeds and adds exactly the region's tree as `o`'s last child; `o` stays the open scope |
| TimeTree.RunRegionsBuildsForest | src/main/kotlin/core/timenode/TimeTree.kt:26-30 | a sequence of regions adds exactly their trees, in call order, as the last children of the open scope |
| TimeTree.BenchActionBuildsItsTree | src/main/kotlin/core/timenode/TimeTree.kt:3-30 | from a fresh tree any nested program succeeds; the root's subtree is the `Active` root over the program's trees |
| TimeTree.EmptyActionLeavesRootOnly | src/main/kotlin/core/timenode/TimeTree.kt:3-5 | an action that times nothing leaves the fresh root alone |
| TimeTree.AddTimeNodeAfterRootClosedThrows | src/main/kotlin/core/timenode/TimeNode.kt:37-48 | once no node above the cursor is open, `addTimeNode` fails with `NoOpenScope` |
| TimeTree.TraversalsFollowExecution | src/main/kotlin/api/timecell/Traversal.kt:6-11 | for any nested program from a fresh tree: preorder titles are the root, then the regions in the order they opened; postorder titles are the regions in the order they completed, then the root |
| TimeTree.ComplexFixtureOrders | src/test/kotlin/core/BenchmarkTests.kt:115-176 | the COMPLEX benchmark's tree flattens to the preorder and postorder title lists the tests expect |
| TimeTree.SingleFixtureOrders | src/test/kotlin/core/BenchmarkTests.kt:115-176 | the SINGLE benchmark's tree flattens to `[root, A]` in preorder and `[A, root]` in postorder |
| TreeCell.Flatten | src/main/kotlin/api/treecell/TreeCell.kt:21-32 | the flattening has one entry per node; preorder starts with the node itself and postorder ends with it |
| TreeCell.PreorderListsNodeBeforeDescendants | src/main/kotlin/api/treecell/TreeCell.kt:21-32 | in preorder every node is directly followed by the rest of its own subtree |
| TreeCell.PostorderListsNodeAfterDescendants | src/main/kotlin/api/treecell/TreeCell.kt:21-32 | in postorder every node is directly preceded by the rest of its own subtree |
| TreeCell.TraversalsArePermutations | src/main/kotlin/api/treecell/TreeCell.kt:21-32 | preorder and postorder list the same nodes the same number of times |
| TreeCell.FlattenAllAppend | src/main/kotlin/api/treecell/TreeCell.kt:25-29 | flattening a list of siblings is the concatenation of their flattenings, left to right |
| TreeCell.RootTitles | src/main/kotlin/api/treecell/TreeCell.kt:21-32 | a root's title comes before its children's titles in preorder and after them in postorder |
| TreeCell.MapRec | src/main/kotlin/api/treecell/TreeCell.kt:34-37 | `mapRec` is the reference index: the listed nodes of the subtree inserted in preorder, each overwriting its title |
| TreeCell.IndexLastWins | src/main/kotlin/api/treecell/TreeCell.kt:34-37 | under each listed title, the reference index holds the last listed entry with that title |
| TreeCell.ToMap | src/main/kotlin/api/treecell/TreeCell.kt:11-15 | `toMap` has a key exactly for the titles of listed nodes (all nodes when untrimmed, else nodes with children); each key holds the last such node in preorder |
| TreeCell.Convert | src/main/kotlin/api/treecell/TreeCell.kt:39-51 | the converted tree has the input's shape, and its root carries the title and state the action gives the input's root |
| TreeCell.ConvertFlatten | src/main/kotlin/api/treecell/TreeCell.kt:39-51 | in either order, the converted flattening relabels the input flattening position by position with the action's titles and states |
| TreeCell.ConvertIdentity | src/main/kotlin/api/treecell/TreeCell.kt:39-51 | a conversion whose action keeps each node's title and state reproduces the tree exactly |
| TreeCellState.Clone | src/main/kotlin/api/treecell/TreeCellState.kt:25-28 | a clone equals the original and is `Complete` exactly when the original is |
| TreeCellState.ForceSetDuration | src/main/kotlin/api/treecell/TreeCellState.kt:17-19 | the state stays `Complete` and now reads the given duration |
| TreeCellUtil.AddTimeState | src/main/kotlin/api/treecell/data/TreeCellUtil.kt:15-32 | the merged state ranks as the higher of the two (`Error` < `Invalid` < `Complete`); a `Complete` result holds the sum of the merged `Complete` durations |
| TreeCellUtil.Precedence | src/main/kotlin/api/treecell/data/TreeCellUtil.kt:28-32 | ranks are at most 2; exactly `Complete` ranks top and exactly `Error` ranks bottom |
| TreeCellUtil.PrecedenceDeterminesIncomplete | src/main/kotlin/api/treecell/data/TreeCellUtil.kt:28-32 | two states of equal precedence below `Complete` are the same state |
| TreeCellUtil.AddTimeStateCommutes | src/main/kotlin/api/treecell/data/TreeCellUtil.kt:15-26 | merging `x` into `y` gives the same state as merging `y` into `x` |
| TreeCellUtil.AddTimeStateAssociates | src/main/kotlin/api/treecell/data/TreeCellUtil.kt:15-26 | the grouping of successive merges does not change the result |
| TreeCellUtil.AddTimeStateIdempotent | src/main/kotlin/api/treecell/data/TreeCellUtil.kt:15-26 | merging the same incomplete state a second time changes nothing |
| TreeCellUtil.ErrorIsNeutral | src/main/kotlin/api/treecell/data/MutableTimeCell.kt:7 | `Error`, a new mutable cell's initial state, is neutral for the merge on both sides |
| TreeCellUtil.ToMutableTimeCell | src/main/kotlin/api/treecell/data/TreeCellUtil.kt:6-8 | the mutable copy has the original's titles, states and shape, node for node |
| TreeCellUtil.ToTimeCell | src/main/kotlin/api/treecell/data/TreeCellUtil.kt:10-12 | converting back gives the tree with the same titles, states and shape |
| TimeCell.Duration | src/main/kotlin/api/treecell/data/TimeCell.kt:11-12 | a duration is present exactly when the state is `Complete`, and it is that state's duration |
| TimeCell.ToCellState | src/main/kotlin/api/treecell/data/TimeCell.kt:19-25 | `Complete(t)` maps to `Complete(t)` and `Error` to `Error`; everything else (`Invalid`, `Active`) maps to `Invalid` |
| TimeCell.NodeToTimeCell | src/main/kotlin/api/treecell/data/TimeCell.kt:17-27 | the cell keeps the node's title, maps its state, and has the same shape as the node's subtree |
| TimeCell.NodesToTimeCells | src/main/kotlin/api/treecell/data/TimeCell.kt:29 | the list conversion converts each node in place and keeps the length |
| TimeCell.NodeToTimeCellIsConvert | src/main/kotlin/api/treecell/data/TimeCell.kt:17-29 | the hand-written recursion equals the generic `convert` with the state mapping |
| TimeCell.NodeToTimeCellTraversal | src/main/kotlin/api/treecell/data/TimeCell.kt:17-29 | in either order, the converted tree's cells match the timing tree's nodes position by position: same title, mapped state |
| IterationHolder.Rec | src/main/kotlin/core/parser/IterationHolder.kt:30-44 | one `rec` pass adds the untrimmed `mapRec` to the map, the preorder flattening to the call-ordered list and the postorder flattening to the completion-ordered list |
| IterationHolder.MapPrePostListFromRoot | src/main/kotlin/core/parser/IterationHolder.kt:21-28 | the triple is (`toMap(unTrimmed = true)`, preorder list, postorder list) of the root |
| IterationHolder.MakeHolder | src/main/kotlin/core/parser/IterationHolder.kt:7-17 | the holder keeps its root with the title map and the call-ordered and completion-ordered lists of that root |
| IterationHolder.HolderIndexes | src/main/kotlin/core/parser/IterationHolder.kt:12-17 | the title map's keys are exactly the titles in call order; each holds the last cell in call order with that title; the completion-ordered list is a permutation of the call-ordered list |
| Parser.MakeParser | src/main/kotlin/core/parser/Parser.kt:15-23 | one well-formed holder per iteration and per warm-up iteration, in order, each over that iteration's root |
| Parser.RootCellFromIteration | src/main/kotlin/core/parser/Parser.kt:42-48 | the selected iteration's root, or `IndexOutOfBounds` exactly when the index is outside the list |
| Parser.RootCellsFromAllIterations | src/main/kotlin/core/parser/Parser.kt:56-59 | one root per iteration, each what `rootCellFromIteration` gives at that index |
| Parser.GetIterationTimeCellsAsList | src/main/kotlin/core/parser/Parser.kt:69-77 | the iteration's cells in preorder (call order) or postorder (completion order), or `IndexOutOfBounds` |
| Parser.TimeCellByTitleFromIteration | src/main/kotlin/core/parser/Parser.kt:88-95 | a cell is found exactly when the title occurs in the iteration; it is the last cell with that title in call order; `IndexOutOfBounds` for a bad index |
| Parser.Lookup | src/main/kotlin/core/parser/Parser.kt:94 | `map[title]` is present exactly when the key is, and then holds the map's value |
| Parser.TimeCellListByTitle | src/main/kotlin/core/parser/Parser.kt:104-110 | one entry per iteration, each what `timeCellByTitleFromIteration` finds there |
| Parser.AverageCell | src/main/kotlin/core/parser/Parser.kt:118-123 | the truncated mean of the `Complete` durations in the list; `DivisionByZero` exactly when none is `Complete` |
| Parser.AverageBenchmarkTime | src/main/kotlin/core/parser/Parser.kt:131-137 | `NoSuchElement` with no iterations; otherwise a `Complete` cell titled after the first root, holding the truncated mean of the roots' `Complete` durations, or `DivisionByZero` when there are none |
| Parser.Merge | src/main/kotlin/core/parser/Parser.kt:149-158 | started from a count of 1, the inner loop leaves the state ranked as the highest sample; a `Complete` state holds the sum of the `Complete` durations and the counter their number; an incomplete one leaves the counter at 1 |
| Parser.AveragedState | src/main/kotlin/core/parser/Parser.kt:150-163 | a node ends `Complete` exactly when some sample for its title is; it then holds the truncated mean of those samples; otherwise it is `Invalid` if any sample is `Invalid`, else `Error` |
| Parser.GenerateAveragedIteration | src/main/kotlin/core/parser/Parser.kt:145-166 | `NoSuchElement` exactly when there are no iterations; otherwise a tree of the first iteration's shape |
| Parser.AveragedIterationIsPointwiseMean | src/main/kotlin/core/parser/Parser.kt:145-166 | each averaged cell, in preorder, keeps its title; its state is the mean or the ranking above over that title's samples from every iteration |
| Parser.SingleIterationAveragesToItself | src/main/kotlin/core/parser/Parser.kt:145-166 | averaging a single iteration returns it unchanged |
| Parser.ExampleMean | src/main/kotlin/core/parser/Parser.kt:150-163 | samples 10, 20 and 30 average to `Complete(20)` |
| Parser.ExampleTruncationAndError | src/main/kotlin/core/parser/Parser.kt:150-163 | a first sample `Error` followed by 10 and 11 averages to `Complete(10)` (truncating division, `Error` not counted) |
| Parser.ExampleMissingTitle | src/main/kotlin/core/parser/Parser.kt:153-154 | iterations lacking the title contribute nothing: a lone `Complete(9)` stays 9 |
| Parser.ExampleInvalidOutranksError | src/main/kotlin/core/parser/Parser.kt:156 | with no `Complete` sample, `Invalid` outranks `Error` |
| Parser.ExampleNoIterations | src/main/kotlin/core/parser/Parser.kt:147 | with no iterations the averaged iteration is `NoSuchElement` |
| BenchmarkConfig.MakeConfig | src/main/kotlin/api/BenchmarkConfig.kt:11-21 | construction succeeds exactly for positive iterations and non-negative warm-ups; iterations are checked first, and each error carries the offending value |
| BenchmarkConfig.DefaultConfig | src/main/kotlin/api/BenchmarkConfig.kt:12-16 | the defaults are valid: 10 iterations, 0 warm-ups |
| BenchmarkConfig.RebuildingIsIdentity | src/main/kotlin/api/BenchmarkConfig.kt:11-21 | rebuilding a valid configuration from its fields succeeds and returns it |
| FormattedTime.InNanos | src/main/kotlin/reporter/utils/FormattedTime.kt:14-21 | every unit is a positive number of nanoseconds |
| FormattedTime.Suffix | src/main/kotlin/reporter/utils/FormattedTime.kt:14-21 | every suffix is non-empty and does not start with a digit |
| FormattedTime.SuffixesDistinct | src/main/kotlin/reporter/utils/FormattedTime.kt:15-20 | different units have different suffixes |
| FormattedTime.UnitsNest | src/main/kotlin/reporter/utils/FormattedTime.kt:15-20 | each unit is a whole multiple of the next smaller one (24 h, 60 min, 60 s, 1000 ms, 1000 μs), and the smallest is 1000 ns |
| FormattedTime.Format | src/main/kotlin/reporter/utils/FormattedTime.kt:5 | the whole number of units in the value, truncated toward zero |
| FormattedTime.FormatMonotone | src/main/kotlin/reporter/utils/FormattedTime.kt:5 | a larger value never formats to fewer units |
| FormattedTime.FormatBelowUnitIsZero | src/main/kotlin/reporter/utils/FormattedTime.kt:5 | less than one unit either way formats to 0 |
| FormattedTime.FormatWholeUnits | src/main/kotlin/reporter/utils/FormattedTime.kt:5 | `n` whole units format to `n` |
| FormattedTime.IntToString | src/main/kotlin/reporter/utils/FormattedTime.kt:7 | the decimal text of a `Long` is canonical: no leading zeros, `0` for zero, a `-` only before a non-zero magnitude |
| FormattedTime.IntStringRoundTrip | src/main/kotlin/reporter/utils/FormattedTime.kt:7 | the decimal text of a `Long`, sign included, reads back as the same number |
| FormattedTime.CanonicalTextIsUnique | src/main/kotlin/reporter/utils/FormattedTime.kt:7 | the decimal text of a number is the only canonical text that reads back as that number |
| FormattedTime.FormatString | src/main/kotlin/reporter/utils/FormattedTime.kt:7 | the text ends with the unit's suffix; what precedes it is canonical decimal text reading back as `format` of the value, hence the one text `Long.toString` gives |
| FormattedTime.ExampleSecondAndAHalf | src/main/kotlin/reporter/utils/FormattedTime.kt:5 | 1.5 s formats to 1 s or to 1500 ms |
| DraftTimeCell.Duration | src/main/kotlin/api/timecell/TimeCell.kt:14-15 | a duration is present exactly when the draft state is `Complete` |
| DraftTimeCell.Get | src/main/kotlin/api/timecell/TimeCell.kt:21-37 | each draft getter equals the reporter's `format` in the matching unit |
| DraftTimeCell.ConvertersAreUnits | src/main/kotlin/api/timecell/TimeCell.kt:67-75 | every `NanosConverter` constant, micro included, is the reporter's unit of that name |
| DraftTimeCell.FormattedMillis | src/main/kotlin/api/timecell/TimeCell.kt:16-18 | the milliseconds shown for a `Complete` cell, or none for an `Invalid` one |
| DraftTimeCell.ToDraftState | src/main/kotlin/api/timecell/TimeCell.kt:79-81 | only `Complete(t)` stays `Complete(t)`; every other node state, `Error` included, becomes `Invalid` |
| DraftTimeCell.NodeToDraftCell | src/main/kotlin/api/timecell/TimeCell.kt:77-83 | the draft cell keeps the title, maps the state, and has the node's shape |
| DraftTimeCell.NodesToDraftCells | src/main/kotlin/api/timecell/TimeCell.kt:85 | each node converted in place, length kept |
| DraftTimeCell.DraftIsDemotedTimeCell | src/main/kotlin/api/timecell/TimeCell.kt:77-85 | the draft conversion is the current conversion followed by turning `Error` into `Invalid` |
| DraftTraversal.TraversRec | src/main/kotlin/api/timecell/Traversal.kt:35-46 | the draft `traversRec` appends exactly the node's flattening, in the given order, to the list it is given |
| DraftTraversal.Flatten | src/main/kotlin/api/timecell/Traversal.kt:13-14 | the draft `flatten` is the generic flattening, with each node adjacent to its subtree |
| DraftTraversal.MapRec | src/main/kotlin/api/timecell/Traversal.kt:49-52 | `mapRec` adds exactly the listed nodes of the subtree as keys, and a map of nodes to their own children stays one |
| DraftTraversal.ToMap | src/main/kotlin/api/timecell/Traversal.kt:20-24 | the keys are exactly the nodes of the tree (all of them when `unTrimmed`, else those with children), each mapped to its children |

## Left out

- `Benchmark.run`, setup, tear-down and logging are not modelled. They
  handle clocks and console output, so an iteration's tree is taken as
  given. The error path (`Benchmark.kt:84-86`) completes the root with
  `Error` and then with the measured duration.
  `TimeNode.SecondCompletionThrows` shows that this second completion, a
  `complete(duration)`, throws.
- `TimeSum` (`timeSum`/`of`), the builders, the reporters,
  `Parser.summary` and all `toString`s are left out. They are presentation
  or construction code, not part of the core.
- `BenchmarkResult` is not modelled, because of the type mismatch described
  above. Its dead `averagedTimeCells` is left out as well.
- `Reporter.kt` uses a `UnitOfTime.NANOSECOND` that the enum does not
  define. It is not part of this model.
- `FormattedState` and the commented-out formatting code are left out.
- `TimeTree.AddTimeNode`: a region's action is a fixed nested program, so
  actions that throw are not modelled. Neither is calling `time` from
  outside the region being timed.
- `Parser.AverageCell`: sums are unbounded integers. The source's 64-bit
  `Long` sum can overflow, and that wrap-around is not modelled.
- `Parser.GenerateAveragedIteration`: the per-node `Int` counter and `Long`
  sum are unbounded here. Overflow after more than 2^31 iterations, or on
  huge durations, is not modelled.
- `FormattedTime.Format`: values are unbounded integers rather than `Long`.
  No unit overflows it, but `Long.MIN_VALUE` text is not special-cased.
- `TreeCell.ToMap`: the source returns a `LinkedHashMap` whose
  iteration order is insertion order. The model is a Dafny `map`, so it
  states keys and values but not that order.
- `IterationHolder.HolderIndexes`: the same applies to the title map's
  iteration order.
- `TimeNode.FindNextParent`: the source reports a missing parent by
  rethrowing the null-dereference exception with a message. Here it is the
  failure `NoOpenScope`, and the message is not modelled.
- Node identity is not modelled. Parent links are arena indices, and two
  equal cells are equal values. The draft `toMap` keys by value, as Kotlin
  data classes do.
