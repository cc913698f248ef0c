/** Option and Result, the two failure-carrying shapes the locator returns. */
module Wrappers {

  datatype Option<+T> = None | Some(value: T)

  /** A Rust `Result<T, &'static str>`: a value, or a fixed diagnostic message. */
  datatype Result<+T> = Ok(value: T) | Err(message: string)

  /** `Result::ok`: the value, or nothing for an error. */
  function ToOption<T>(r: Result<T>): (o: Option<T>)
    ensures o.Some? <==> r.Ok?
    ensures o.Some? ==> o.value == r.value
  {
    match r
    case Ok(v) => Some(v)
    case Err(_) => None
  }
}
