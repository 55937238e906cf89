/** Option and Result, the two failure-carrying shapes used across the model:
    Option stands for a JavaScript value that may be `undefined`, Result for a
    call that either returns or throws (or rejects) with a typed error. Also
    the one projection of a list onto string keys that several modules use. */
module Wrappers {

  datatype Option<+T> = None | Some(value: T)

  datatype Result<+T, +E> = Ok(value: T) | Err(error: E)

  /** The key of each element of a list, in order (`xs.map(key)`). */
  function KeysOf<T>(xs: seq<T>, key: T -> string): (ks: seq<string>)
    ensures |ks| == |xs| && forall k :: 0 <= k < |xs| ==> ks[k] == key(xs[k])
  {
    seq(|xs|, k requires 0 <= k < |xs| => key(xs[k]))
  }

}
