/**
 * `main`: the exit status of the program from what the chosen action returned, or from
 * its aborting.
 */
module ExitStatus {
  import opened Common

  /** How an action ended: it raised `Abort`, or it returned a value. */
  datatype ActionOutcome = Aborted | Returned(value: Json)

  /** The status of an aborted action. */
  const AbortStatus: int := 10

  /** `ret is True` gives 0, `ret is False` 1, another integer itself, anything else 0. */
  function ExitCode(outcome: ActionOutcome): (code: int)
    ensures code == 0 <==>
      outcome.Returned? && (outcome.value == JBool(true) || outcome.value == JInt(0)
                            || !(outcome.value.JBool? || outcome.value.JInt?))
    ensures outcome.Aborted? ==> code == AbortStatus
    ensures outcome == Returned(JBool(false)) ==> code == 1
    ensures outcome.Returned? && outcome.value.JInt? ==> code == outcome.value.i
  {
    match outcome
    case Aborted => AbortStatus
    case Returned(ret) =>
      if ret == JBool(true) then 0
      else if ret == JBool(false) then 1
      else if ret.JInt? then ret.i
      else 0
  }

  /**
   * The actions of this client return a boolean, nothing, or a JSON object: they exit
   * with a failure status exactly when they abort or return `false`.
   */
  lemma FailureStatus(outcome: ActionOutcome)
    requires outcome.Returned? ==> !outcome.value.JInt?
    ensures ExitCode(outcome) != 0 <==> outcome.Aborted? || outcome == Returned(JBool(false))
  {
  }
}
