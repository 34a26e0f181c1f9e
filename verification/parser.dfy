/**
 * core/parser/Parser.kt: per-iteration accessors over the measured trees of
 * a benchmark, and the cross-iteration averages.
 *
 * Kotlin list indexing, `first()` and integer division by zero throw; here
 * they return a `Failure` naming the exception.
 */
module Parser {
  import opened Wrappers
  import opened Arith
  import opened TreeCell
  import opened TreeCellState
  import opened TreeCellUtil
  import opened IterationHolder

  datatype IterationType = BenchmarkIteration | WarmupIteration

  /** The exceptions the parser's operations can end with. */
  datatype ParserError =
    | IndexOutOfBounds   // `holders[i]` with `i` outside the list
    | NoSuchElement      // `first()` of an empty list
    | DivisionByZero     // `sum / count` with no `Complete` cell

  datatype Parser = Parser(
    benchmarkName: string,
    nanoseconds: int,
    iterHolders: seq<Holder>,
    warmupHolders: seq<Holder>)

  /** The `Parser(result)` constructor: one holder per iteration and per warm-up iteration, in order. */
  function MakeParser(title: string, benchmarkTime: int, iterations: seq<Cell>, warmups: seq<Cell>): (p: Parser)
    ensures WellFormed(p)
    ensures |p.iterHolders| == |iterations| && |p.warmupHolders| == |warmups|
    ensures forall i :: 0 <= i < |iterations| ==> p.iterHolders[i].rootCell == iterations[i]
    ensures forall i :: 0 <= i < |warmups| ==> p.warmupHolders[i].rootCell == warmups[i]
  {
    Parser(title, benchmarkTime, MakeHolders(iterations), MakeHolders(warmups))
  }

  /** One holder per root, in order. */
  function MakeHolders(roots: seq<Cell>): (hs: seq<Holder>)
    ensures |hs| == |roots|
    ensures forall i :: 0 <= i < |roots| ==> hs[i].rootCell == roots[i] && HolderOf(hs[i])
  {
    seq(|roots|, i requires 0 <= i < |roots| => MakeHolder(roots[i]))
  }

  /** Every holder indexes its own root, as the constructor leaves it. */
  ghost predicate WellFormed(p: Parser)
  {
    && (forall i :: 0 <= i < |p.iterHolders| ==> HolderOf(p.iterHolders[i]))
    && (forall i :: 0 <= i < |p.warmupHolders| ==> HolderOf(p.warmupHolders[i]))
  }

  /** The holders an `IterationType` selects. */
  function Holders(p: Parser, it: IterationType): seq<Holder>
  {
    if it == BenchmarkIteration then p.iterHolders else p.warmupHolders
  }

  // ---------------------------------------------------------------------------
  // Accessors

  /** `rootCellFromIteration`. */
  function RootCellFromIteration(p: Parser, index: int, it: IterationType): (r: Result<Cell, ParserError>)
    ensures r.Success? <==> 0 <= index < |Holders(p, it)|
    ensures r.Failure? ==> r.error == IndexOutOfBounds
    ensures r.Success? ==> r.value == Holders(p, it)[index].rootCell
  {
    var hs := Holders(p, it);
    if 0 <= index < |hs| then Success(hs[index].rootCell) else Failure(IndexOutOfBounds)
  }

  /** `rootCellsFromAllIterations`: the root cells, in iteration order. */
  function RootCellsFromAllIterations(p: Parser, it: IterationType): (r: seq<Cell>)
    ensures |r| == |Holders(p, it)|
    ensures forall i :: 0 <= i < |r| ==> RootCellFromIteration(p, i, it) == Success(r[i])
  {
    var hs := Holders(p, it);
    seq(|hs|, i requires 0 <= i < |hs| => hs[i].rootCell)
  }

  /**
   * `getIterationTimeCellsAsList`: an iteration's cells in call order (the
   * preorder of its tree) or in completion order (the postorder).
   */
  function GetIterationTimeCellsAsList(p: Parser, index: int, order: IterationListOrder, it: IterationType): (r: Result<seq<Cell>, ParserError>)
    requires WellFormed(p)
    ensures r.Success? <==> 0 <= index < |Holders(p, it)|
    ensures r.Failure? ==> r.error == IndexOutOfBounds
    ensures r.Success? ==> var root := RootCellFromIteration(p, index, it).value;
      r.value == Flatten(root, if order == CompletionOrder then Postorder else Preorder)
  {
    var hs := Holders(p, it);
    if !(0 <= index < |hs|) then Failure(IndexOutOfBounds)
    else if order == CompletionOrder then Success(hs[index].completionOrdered)
    else Success(hs[index].callOrdered)
  }

  /**
   * `timeCellByTitleFromIteration`: null exactly when no cell of the
   * iteration has the title; otherwise the last such cell in call order.
   */
  function TimeCellByTitleFromIteration(p: Parser, title: string, index: int, it: IterationType): (r: Result<Option<Cell>, ParserError>)
    requires WellFormed(p)
    ensures r.Success? <==> 0 <= index < |Holders(p, it)|
    ensures r.Failure? ==> r.error == IndexOutOfBounds
    ensures r.Success? ==> var cells := Flatten(Holders(p, it)[index].rootCell, Preorder);
      && (r.value.Some? <==> title in Titles(cells))
      && (r.value.Some? ==> exists i :: LastListedAt(cells, true, title, i) && r.value.value == cells[i])
  {
    var hs := Holders(p, it);
    if !(0 <= index < |hs|) then Failure(IndexOutOfBounds)
    else
      HolderIndexes(hs[index]);
      Success(Lookup(hs[index].titleMap, title))
  }

  /** `map[title]`: the entry, or null. */
  function Lookup(m: map<string, Cell>, title: string): (r: Option<Cell>)
    ensures r.Some? <==> title in m
    ensures r.Some? ==> r.value == m[title]
  {
    if title in m then Some(m[title]) else None
  }

  /** `timeCellListByTitle`: the title looked up in every iteration, null where it is missing. */
  function TimeCellListByTitle(p: Parser, title: string, it: IterationType): (r: seq<Option<Cell>>)
    requires WellFormed(p)
    ensures |r| == |Holders(p, it)|
    ensures forall i :: 0 <= i < |r| ==> Success(r[i]) == TimeCellByTitleFromIteration(p, title, i, it)
  {
    var hs := Holders(p, it);
    seq(|hs|, i requires 0 <= i < |hs| => Lookup(hs[i].titleMap, title))
  }

  // ---------------------------------------------------------------------------
  // Reference statistics over a list of states

  /** How many of the states are `Complete`. */
  function CountComplete(xs: seq<CellState>): nat
  {
    if xs == [] then 0 else (if xs[0].Complete? then 1 else 0) + CountComplete(xs[1..])
  }

  /** The sum of the durations of the `Complete` states. */
  function SumComplete(xs: seq<CellState>): int
  {
    if xs == [] then 0 else Contribution(xs[0]) + SumComplete(xs[1..])
  }

  /** The highest precedence among the states (`Error`'s when there are none). */
  function MaxPrecedence(xs: seq<CellState>): nat
  {
    if xs == [] then 0 else Max(Precedence(xs[0]), MaxPrecedence(xs[1..]))
  }

  lemma {:induction false} StatisticsAppend(xs: seq<CellState>, ys: seq<CellState>)
    ensures CountComplete(xs + ys) == CountComplete(xs) + CountComplete(ys)
    ensures SumComplete(xs + ys) == SumComplete(xs) + SumComplete(ys)
    ensures MaxPrecedence(xs + ys) == Max(MaxPrecedence(xs), MaxPrecedence(ys))
    decreases |xs|
  {
    if xs == [] {
      assert xs + ys == ys;
    } else {
      assert (xs + ys)[1..] == xs[1..] + ys;
      StatisticsAppend(xs[1..], ys);
    }
  }

  /** Some state is `Complete` exactly when the highest precedence is `Complete`'s. */
  lemma {:induction false} CompleteIffTopPrecedence(xs: seq<CellState>)
    ensures CountComplete(xs) > 0 <==> MaxPrecedence(xs) == 2
    ensures MaxPrecedence(xs) <= 2
  {
    if xs != [] {
      CompleteIffTopPrecedence(xs[1..]);
    }
  }

  /** The states of a list of cells. */
  function States(cells: seq<Cell>): (r: seq<CellState>)
    ensures |r| == |cells|
    ensures forall i :: 0 <= i < |cells| ==> r[i] == cells[i].state
  {
    seq(|cells|, i requires 0 <= i < |cells| => cells[i].state)
  }

  // ---------------------------------------------------------------------------
  // averageCell and averageBenchmarkTime

  /**
   * `averageCell`: the truncated mean of the durations of the `Complete`
   * cells; with none, the division by a zero count throws.
   */
  method AverageCell(list: seq<Cell>) returns (r: Result<int, ParserError>)
    ensures r.Failure? <==> CountComplete(States(list)) == 0
    ensures r.Failure? ==> r.error == DivisionByZero
    ensures r.Success? ==> r.value == Quot(SumComplete(States(list)), CountComplete(States(list)))
  {
    var sum := 0;
    var count := 0;
    var i := 0;
    while i < |list|
      invariant 0 <= i <= |list|
      invariant sum == SumComplete(States(list)[..i])
      invariant count == CountComplete(States(list)[..i])
    {
      var xs := States(list);
      assert xs[..i + 1] == xs[..i] + [xs[i]];
      StatisticsAppend(xs[..i], [xs[i]]);
      if list[i].state.Complete? {
        sum := sum + list[i].state.duration;
        count := count + 1;
      }
      i := i + 1;
    }
    assert States(list)[..|list|] == States(list);
    if count == 0 {
      return Failure(DivisionByZero);
    }
    return Success(Quot(sum, count));
  }

  /**
   * `averageBenchmarkTime`: a childless `Complete` cell titled like the first
   * iteration's root, holding the mean duration of the `Complete` roots.
   * Without iterations `first()` throws before any division; with
   * iterations but no `Complete` root the division throws.
   */
  method AverageBenchmarkTime(p: Parser, it: IterationType) returns (r: Result<Cell, ParserError>)
    ensures |Holders(p, it)| == 0 ==> r == Failure(NoSuchElement)
    ensures var roots := States(RootCellsFromAllIterations(p, it));
      |Holders(p, it)| > 0 ==>
        && (r.Failure? <==> CountComplete(roots) == 0)
        && (r.Failure? ==> r.error == DivisionByZero)
        && (r.Success? ==> r.value == Tree(Holders(p, it)[0].rootCell.title,
                                           Complete(Quot(SumComplete(roots), CountComplete(roots))), []))
  {
    var hs := Holders(p, it);
    if |hs| == 0 {
      return Failure(NoSuchElement);
    }
    var avg :- AverageCell(RootCellsFromAllIterations(p, it));
    return Success(Tree(hs[0].rootCell.title, Complete(avg), []));
  }

  // ---------------------------------------------------------------------------
  // generateAveragedIteration

  /** The states found under `title` in the title maps, in order, skipping maps without it. */
  function LookedUp(title: string, maps: seq<map<string, Cell>>): (r: seq<CellState>)
    ensures |r| <= |maps|
  {
    if maps == [] then []
    else (if title in maps[0] then [maps[0][title].state] else []) + LookedUp(title, maps[1..])
  }

  /**
   * The inner loop of `generateAveragedIteration` for one cell: for each
   * later iteration holding the title, count the sample when both the cell
   * and the sample are `Complete`, then `addTimeState` it into the cell.
   *
   * Started as the source starts it (a count of 1, which a non-`Complete`
   * cell keeps), the fold ends with the highest precedence seen, the sum of
   * the `Complete` durations seen, and, once the cell is `Complete`, a count
   * equal to the number of `Complete` states seen: the first `Complete`
   * sample replaces a non-`Complete` cell without counting, which the
   * initial 1 makes up for.
   */
  function Merge(s: CellState, count: nat, title: string, maps: seq<map<string, Cell>>): (r: (CellState, nat))
    ensures var (m, c) := r; var xs := LookedUp(title, maps);
      count >= 1 && (!s.Complete? ==> count == 1) ==>
        && Precedence(m) == Max(Precedence(s), MaxPrecedence(xs))
        && (m.Complete? ==> m.duration == Contribution(s) + SumComplete(xs))
        && (m.Complete? ==> c == (if s.Complete? then count else 0) + CountComplete(xs))
        && (!m.Complete? ==> c == count)
    decreases |maps|
  {
    if maps == [] then (s, count)
    else if title in maps[0] then
      var x := maps[0][title].state;
      var count' := if s.Complete? && x.Complete? then count + 1 else count;
      var xs := LookedUp(title, maps);
      assert xs[0] == x && xs[1..] == LookedUp(title, maps[1..]);
      Merge(AddTimeState(s, x), count', title, maps[1..])
    else
      assert LookedUp(title, maps) == LookedUp(title, maps[1..]);
      Merge(s, count, title, maps[1..])
  }

  /**
   * The averaged state of one cell: its own state merged with the states
   * found under its title in the later iterations, a `Complete` sum divided
   * by the count.
   */
  function AveragedState(s: CellState, title: string, maps: seq<map<string, Cell>>): (r: CellState)
    ensures var xs := [s] + LookedUp(title, maps);
      && (r.Complete? <==> CountComplete(xs) > 0)
      && (r.Complete? ==> r.duration == Quot(SumComplete(xs), CountComplete(xs)))
      && (!r.Complete? ==> r == (if MaxPrecedence(xs) == 1 then Invalid else Error))
  {
    var (m, c) := Merge(s, 1, title, maps);
    StatisticsAppend([s], LookedUp(title, maps));
    CompleteIffTopPrecedence([s] + LookedUp(title, maps));
    if m.Complete? then ForceSetDuration(m, Quot(m.duration, c)) else m
  }

  /** The averaged copy of one skeleton cell; `convert` supplies the children. */
  function AverageNode(x: Cell, maps: seq<map<string, Cell>>): Cell
  {
    Tree(x.title, AveragedState(x.state, x.title, maps), [])
  }

  /** The title maps of all iterations after the first. */
  function LaterMaps(hs: seq<Holder>): (r: seq<map<string, Cell>>)
    requires |hs| > 0
    ensures |r| == |hs| - 1
    ensures forall i :: 1 <= i < |hs| ==> r[i - 1] == hs[i].titleMap
  {
    seq(|hs| - 1, i requires 0 <= i < |hs| - 1 => hs[i + 1].titleMap)
  }

  /**
   * `generateAveragedIteration`: a copy of the first iteration's tree in
   * which every cell's state is averaged with the cells found under its title
   * in the other iterations. Each cell's averaging reads and writes only that
   * cell, so the source's preorder loop over the copy is a per-node
   * conversion of the first iteration's tree.
   */
  function GenerateAveragedIteration(p: Parser, it: IterationType): (r: Result<Cell, ParserError>)
    ensures r.Failure? <==> |Holders(p, it)| == 0
    ensures r.Failure? ==> r.error == NoSuchElement
    ensures r.Success? ==> SameShape(Holders(p, it)[0].rootCell, r.value)
  {
    var hs := Holders(p, it);
    if |hs| == 0 then Failure(NoSuchElement)
    else
      var skeleton := ToMutableTimeCell(hs[0].rootCell);
      var maps := LaterMaps(hs);
      Success(ToTimeCell(Convert(skeleton, x => AverageNode(x, maps))))
  }

  /**
   * The samples averaged for the `i`-th cell (in call order) of the first
   * iteration: its own state, then, for each later iteration whose tree has
   * the title, the state of the last cell with that title in call order.
   */
  function Samples(hs: seq<Holder>, i: nat): seq<CellState>
    requires |hs| > 0 && i < |Flatten(hs[0].rootCell, Preorder)|
  {
    var c := Flatten(hs[0].rootCell, Preorder)[i];
    [c.state] + LookedUp(c.title, LaterMaps(hs))
  }

  /**
   * The averaged iteration lists, in call order, exactly the cells of the
   * first iteration with their titles, each holding the truncated mean of
   * its `Complete` samples, or, when it has none, `Invalid` if any sample is
   * `Invalid` and `Error` otherwise.
   */
  lemma AveragedIterationIsPointwiseMean(p: Parser, it: IterationType)
    requires |Holders(p, it)| > 0
    ensures var hs := Holders(p, it);
      var first, avg := Flatten(hs[0].rootCell, Preorder), Flatten(GenerateAveragedIteration(p, it).value, Preorder);
      && |avg| == |first|
      && forall i :: 0 <= i < |first| ==>
           var xs := Samples(hs, i);
           && avg[i].title == first[i].title
           && (avg[i].state.Complete? <==> CountComplete(xs) > 0)
           && (avg[i].state.Complete? ==> avg[i].state.duration == Quot(SumComplete(xs), CountComplete(xs)))
           && (!avg[i].state.Complete? ==> avg[i].state == (if MaxPrecedence(xs) == 1 then Invalid else Error))
  {
    var hs := Holders(p, it);
    var maps := LaterMaps(hs);
    ConvertFlatten(hs[0].rootCell, x => AverageNode(x, maps), Preorder);
  }

  /** With a single iteration the averaged iteration is that iteration. */
  lemma SingleIterationAveragesToItself(p: Parser, it: IterationType)
    requires |Holders(p, it)| == 1
    ensures GenerateAveragedIteration(p, it) == Success(Holders(p, it)[0].rootCell)
  {
    var hs := Holders(p, it);
    var maps := LaterMaps(hs);
    forall x: Cell ensures AverageNode(x, maps).title == x.title && AverageNode(x, maps).state == x.state {
      assert LookedUp(x.title, maps) == [];
    }
    ConvertIdentity(hs[0].rootCell, x => AverageNode(x, maps));
  }

  // ---------------------------------------------------------------------------
  // Worked examples

  /** A cell without children, as a title map holds it for the examples. */
  function LoneCell(title: string, s: CellState): Cell
  {
    Tree(title, s, [])
  }

  /** Three iterations of 10, 20 and 30 ns average to 20 ns. */
  lemma ExampleMean()
    ensures AveragedState(Complete(10), "root",
      [map["root" := LoneCell("root", Complete(20))], map["root" := LoneCell("root", Complete(30))]]) == Complete(20)
  {
  }

  /** The mean truncates (10 and 11 ns average to 10 ns), and a failed first sample is ignored. */
  lemma ExampleTruncationAndError()
    ensures AveragedState(Error, "root",
      [map["root" := LoneCell("root", Complete(10))], map["root" := LoneCell("root", Complete(11))]]) == Complete(10)
  {
  }

  /** A cell whose title is missing from the other iterations keeps its own duration. */
  lemma ExampleMissingTitle()
    ensures AveragedState(Complete(9), "inner", [map["root" := LoneCell("root", Complete(1))], map[]]) == Complete(9)
  {
  }

  /** An `Invalid` sample outranks `Error` when nothing completed. */
  lemma ExampleInvalidOutranksError()
    ensures AveragedState(Error, "t", [map["t" := LoneCell("t", Invalid)], map["t" := LoneCell("t", Error)]]) == Invalid
  {
  }

  /** No iterations: `first()` throws. */
  lemma ExampleNoIterations()
    ensures GenerateAveragedIteration(MakeParser("bench", 0, [], []), BenchmarkIteration) == Failure(NoSuchElement)
  {
  }
}
