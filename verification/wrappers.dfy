/** Failure-carrying result types shared by the whole model. */
module Wrappers {

  datatype Option<+T> = None | Some(value: T)

  datatype Result<+T, +E> = Ok(value: T) | Err(error: E) {
    predicate IsFailure() { Err? }

    function PropagateFailure<U>(): Result<U, E>
      requires Err?
    {
      Err(error)
    }

    function Extract(): T
      requires Ok?
    {
      value
    }
  }
}

/** The errors the explorer client can surface, one case per distinct failure in the Go code. */
module Errors {

  datatype Error =
    | TransportError                 // http.Get failed, or the response envelope was not valid JSON
    | JsonTypeError                  // a field held a JSON value that does not unmarshal into a Go string
    | BigIntSyntax(text: string)     // "failed to parse %s" from jsonBigInt.UnmarshalJSON
    | ParseIntError(text: string)    // strconv.ParseInt failed (syntax or range) in timestamp.UnmarshalJSON
    | AddressExpected(text: string)  // "eth address expected, got %s"
    | MissingCounterparty            // "Need one of: to, contractAddress"
    | NotOurAccount                  // "transaction does not belong to our account"
}
