/**
 * api/BenchmarkConfig.kt: a benchmark's configuration, whose constructor
 * rejects a non-positive iteration count and then a negative warm-up count.
 */
module BenchmarkConfig {
  import opened Wrappers

  datatype Config = Config(
    name: string,
    iterations: int,
    logging: bool,
    warmupIterations: int,
    formattedTable: bool)

  /** The `IllegalArgumentException`s of the two `require` checks, with the offending value. */
  datatype ConfigError =
    | IterationsNotPositive(iterations: int)
    | NegativeWarmup(warmupIterations: int)

  /** What a constructed configuration satisfies. */
  predicate ValidConfig(c: Config)
  {
    c.iterations > 0 && c.warmupIterations >= 0
  }

  /**
   * The constructor: the iteration count is checked first, so a
   * configuration wrong in both ways reports the iteration count.
   */
  function MakeConfig(name: string, iterations: int, logging: bool, warmupIterations: int, formattedTable: bool)
    : (r: Result<Config, ConfigError>)
    ensures r.Success? <==> ValidConfig(Config(name, iterations, logging, warmupIterations, formattedTable))
    ensures r.Success? ==> r.value == Config(name, iterations, logging, warmupIterations, formattedTable)
    ensures iterations <= 0 ==> r == Failure(IterationsNotPositive(iterations))
    ensures iterations > 0 && warmupIterations < 0 ==> r == Failure(NegativeWarmup(warmupIterations))
  {
    if !(iterations > 0) then Failure(IterationsNotPositive(iterations))
    else if !(warmupIterations >= 0) then Failure(NegativeWarmup(warmupIterations))
    else Success(Config(name, iterations, logging, warmupIterations, formattedTable))
  }

  /** The default arguments: no name, 10 iterations, no logging, no warm-up, no table. */
  function DefaultConfig(): (r: Result<Config, ConfigError>)
    ensures r.Success? && ValidConfig(r.value)
    ensures r.value.iterations == 10 && r.value.warmupIterations == 0
  {
    MakeConfig("", 10, false, 0, false)
  }

  /** Every configuration the constructor accepts passes its checks again: rebuilding it succeeds unchanged. */
  lemma RebuildingIsIdentity(c: Config)
    requires ValidConfig(c)
    ensures MakeConfig(c.name, c.iterations, c.logging, c.warmupIterations, c.formattedTable) == Success(c)
  {
  }
}
