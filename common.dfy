/** Option and Result, the two failure-carrying datatypes the rest of the model uses. */
module Common {

  datatype Option<+T> = None | Some(value: T)

  /** The outcome of an operation that the source can abandon by throwing an Error. */
  datatype Result<+T> = Ok(value: T) | Err(message: string)

  function Max(a: int, b: int): (r: int)
    ensures r >= a && r >= b && (r == a || r == b)
  {
    if a >= b then a else b
  }
}
