/** Success/failure outcome shared by every module of the model. */
module Results {

  /** `Ok` carries the new value; `Err` names the fault that the source would hit
      (undefined behaviour in MPI or C++, or a stale read in the schedule). */
  datatype Result<+T, +E> = Ok(value: T) | Err(fault: E) {

    predicate IsFailure() {
      Err?
    }

    function PropagateFailure<U>(): Result<U, E>
      requires Err?
    {
      Err(fault)
    }

    function Extract(): T
      requires Ok?
    {
      value
    }
  }
}
