/** The exceptions that stop one run of the price page, and the Result and Option types
    the model uses in place of raising them. */
module Failures {

  /** Every way a run stops. In the script each is a Python exception; the blanket
      handler at the end of the try block adds an error message and the exception's
      text below whatever the page had already shown. */
  datatype Failure =
    | TableMissing            // a located table or its body is absent: attribute access on None
    | CategoryNotFound        // no current-price row has the selected category: index 0 of nothing
    | NotAnInteger(text: string)  // int() refused the text
    | MissingDayHeader        // a historical row has no th cell: attribute access on None

  datatype Option<+T> = None | Some(value: T)

  datatype Result<+T> = Ok(value: T) | Err(error: Failure) {
    predicate IsFailure() { Err? }

    function PropagateFailure<U>(): Result<U>
      requires Err?
    {
      Err(error)
    }

    function Extract(): T
      requires Ok?
    {
      value
    }
  }
}
