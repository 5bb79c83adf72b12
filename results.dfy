/** The failures the snapping code can raise, as values. */
module Results {

  /** `ZeroDivision`: `1/dweight` or `1/aweight` with a zero weight.
      `EmptyArgMin`: `np.argmin` of a grid with no cells. */
  datatype SnapError = ZeroDivision | EmptyArgMin

  datatype Result<T> = Ok(value: T) | Err(error: SnapError) {
    predicate IsFailure() {
      Err?
    }

    function PropagateFailure<U>(): Result<U>
      requires Err?
    {
      Err(error)
    }

    function Extract(): T
      requires Ok?
    {
      value
    }
  }
}
