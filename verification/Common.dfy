/** Failure-compatible wrappers and the byte type shared by the other modules. */
module Common {

  datatype Option<+T> = None | Some(value: T)

  datatype Result<+T, +E> = Ok(value: T) | Err(error: E) {
    predicate IsFailure() {
      Err?
    }

    function PropagateFailure<U>(): Result<U, E>
      requires Err?
    {
      Err(error)
    }

    function Extract(): T
      requires Ok?
    {
      value
    }
  }

  const TWO_32: nat := 0x1_0000_0000

  /** One octet. Shifts by eight in the source are multiplications and divisions by 256 here. */
  type Byte = b: int | 0 <= b < 256
}
