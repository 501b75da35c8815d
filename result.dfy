/** The outcome of an operation that the source aborts with a fatal error
    on some inputs: either the value it returns or the error it raises. */
module Outcomes {

  datatype Result<T> = Ok(value: T) | Fatal(message: string) {
    predicate IsFailure() { Fatal? }
  }
}
