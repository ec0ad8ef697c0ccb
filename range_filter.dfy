/**
 * `RangeFilter`, the logging filter that passes records whose level lies in an
 * inclusive range, and the two filters `log_to_stream` installs.
 */
module RangeFilter {
  import opened Common

  /** The standard logging levels the client uses. */
  const DEBUG: int := 10
  const INFO: int := 20
  const WARN: int := 30
  const ERROR: int := 40
  const FATAL: int := 50

  /** A filter with an optional lower and upper bound on the record's level. */
  datatype Filter = Filter(minLevel: Option<int>, maxLevel: Option<int>) {

    /** At least one bound: with neither, the comparison with None raises TypeError. */
    predicate Bounded() {
      minLevel.Some? || maxLevel.Some?
    }

    /** `filter(record)`: whether a record of level `levelno` passes. */
    function Accepts(levelno: int): (accepted: bool)
      requires Bounded()
      ensures accepted <==>
        (minLevel.None? || minLevel.value <= levelno) && (maxLevel.None? || levelno <= maxLevel.value)
    {
      if maxLevel.None? then levelno >= minLevel.value
      else if minLevel.None? then levelno <= maxLevel.value
      else minLevel.value <= levelno <= maxLevel.value
    }
  }

  /** The filter of the standard-output handler: INFO only. */
  const StdoutFilter := Filter(Some(INFO), Some(INFO))

  /** The filter of the standard-error handler: WARN and above. */
  const StderrFilter := Filter(Some(WARN), None)

  /**
   * The two handlers split the levels: INFO goes to standard output only, WARN and
   * above to standard error only, and DEBUG (or anything below WARN but INFO) to neither.
   */
  lemma StreamRouting(levelno: int)
    ensures StdoutFilter.Accepts(levelno) <==> levelno == INFO
    ensures StderrFilter.Accepts(levelno) <==> levelno >= WARN
    ensures !(StdoutFilter.Accepts(levelno) && StderrFilter.Accepts(levelno))
    ensures levelno == DEBUG ==> !StdoutFilter.Accepts(levelno) && !StderrFilter.Accepts(levelno)
  {
  }
}
