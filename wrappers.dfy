/** Option and Result, the two failure-carrying datatypes the model uses. */
module Wrappers {

  datatype Option<+T> = None | Some(value: T)

  /** Ok carries the value of an operation that finished, Err the exception it raised. */
  datatype Result<+R, +E> = Ok(value: R) | Err(error: E)

  /**
   * Python's list subscript `xs[i]` for a list of length `n`: a negative
   * index counts from the end, anything outside `-n <= i < n` raises
   * IndexError (None here).
   */
  function PyIndex(n: nat, i: int): (r: Option<nat>)
    ensures r.Some? <==> -(n as int) <= i < n
    ensures r.Some? ==> r.value < n
    ensures r.Some? && 0 <= i ==> r.value == i
    ensures r.Some? && i < 0 ==> r.value + (-i) == n
  {
    if 0 <= i < n then Some(i)
    else if -(n as int) <= i < 0 then Some(n + i)
    else None
  }
}
