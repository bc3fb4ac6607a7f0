/** How a kernel routine ends: with a value, or by halting the machine in panic(). */
module Outcomes {
  datatype Outcome<+T> = Done(value: T) | Panic
  {
    predicate IsFailure() {
      Panic?
    }

    function PropagateFailure<U>(): Outcome<U>
      requires Panic?
    {
      Panic
    }

    function Extract(): T
      requires Done?
    {
      value
    }
  }

  datatype Option<+T> = None | Some(value: T)
}
