/**
 The retry wrapper used around user-client requests: a call is repeated while it
 fails with a server error, up to a fixed number of attempts. The pause between
 attempts is not modelled.
 */
module Retry {

  /** The result of one invocation of the wrapped call. */
  datatype Attempt<T, E> = Success(value: T) | ServerError(error: E) | OtherError(error: E)

  /** What the wrapper hands back to its caller. */
  datatype RetryResult<T, E> =
    | Returned(value: T)
    | RaisedServerError(error: E)
    | RaisedOther(error: E)
    | ReturnedNone

  /** How one attempt's result surfaces when the wrapper stops on it. */
  function Surface<T, E>(a: Attempt<T, E>): (r: RetryResult<T, E>)
    ensures r.Returned? <==> a.Success?
    ensures a.Success? ==> r.value == a.value
    ensures a.ServerError? ==> r == RaisedServerError(a.error)
    ensures a.OtherError? ==> r == RaisedOther(a.error)
  {
    match a
    case Success(v) => Returned(v)
    case ServerError(e) => RaisedServerError(e)
    case OtherError(e) => RaisedOther(e)
  }

  /** The index of the first attempt that is not a server error, looking no further than `bound`. */
  function FirstSettled<T, E>(call: nat -> Attempt<T, E>, from: nat, bound: nat): (k: nat)
    requires from <= bound
    ensures from <= k <= bound
    ensures forall i :: from <= i < k ==> call(i).ServerError?
    ensures k < bound ==> !call(k).ServerError?
    decreases bound - from
  {
    if from == bound || !call(from).ServerError? then from
    else FirstSettled(call, from + 1, bound)
  }

  /**
   Runs the wrapper. `call(i)` is what the wrapped call yields on its `i`-th
   invocation; `calls` counts the invocations made.
   */
  method RetryOnServerError<T, E>(maxRetries: int, call: nat -> Attempt<T, E>)
    returns (r: RetryResult<T, E>, calls: nat)
    ensures maxRetries <= 0 ==> calls == 0 && r == ReturnedNone
    ensures maxRetries > 0 ==> 1 <= calls <= maxRetries
    ensures forall i :: 0 <= i < calls - 1 ==> call(i).ServerError?
    ensures maxRetries > 0 ==> r == Surface(call(calls - 1))
    ensures calls < maxRetries ==> calls == 0 || !call(calls - 1).ServerError?
    ensures maxRetries > 0 ==>
      var k := FirstSettled(call, 0, maxRetries);
      && (k < maxRetries ==> calls == k + 1 && r == Surface(call(k)))
      && (k == maxRetries ==> calls == maxRetries && r == RaisedServerError(call(maxRetries - 1).error))
  {
    var retries := 0;
    calls := 0;
    while retries < maxRetries
      invariant 0 <= retries == calls
      invariant maxRetries > 0 ==> retries < maxRetries
      invariant maxRetries <= 0 ==> calls == 0
      invariant forall i :: 0 <= i < calls ==> call(i).ServerError?
    {
      var a := call(calls);
      calls := calls + 1;
      if !a.ServerError? {
        return Surface(a), calls;
      }
      retries := retries + 1;
      if retries == maxRetries {
        return RaisedServerError(a.error), calls;
      }
    }
    return ReturnedNone, calls;
  }
}
