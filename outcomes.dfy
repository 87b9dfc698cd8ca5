/** Failure-compatible result types shared by the model. */
module Outcomes {

  datatype Option<+T> = None | Some(value: T)

  /** Ok, or a fatal stop: a failed C `assert`, an `MR_fatal_error` call, or a
      read or write through a pointer that lies outside the memory it should
      point into (undefined behaviour in C, which the model reports as Fatal). */
  datatype Outcome = Ok | Fatal(msg: string) {
    predicate IsFailure() { Fatal? }
    function PropagateFailure(): Outcome requires Fatal? { this }
  }
}
