/** Failure-carrying datatypes shared by every handler of the model. */
module Wrappers {

  /** A value that may be absent (JavaScript's `null` / `undefined`). */
  datatype Option<+T> = None | Some(value: T)

  /** What an HTTP handler answers: a success value, a status code with one
      message, or a 400 carrying every issue a schema validation collected. */
  datatype Outcome<+T> =
    | Ok(value: T)
    | Fail(status: nat, error: string)
    | Invalid(issues: seq<string>)
  {
    /** The HTTP status the handler answers with on failure. */
    function Status(): nat
      requires !Ok?
    {
      if Fail? then status else 400
    }
  }

  /** The first `n` elements of `s` (JavaScript's `slice(0, n)`, Prisma's `take`). */
  function Take<T>(s: seq<T>, n: nat): (r: seq<T>)
    ensures |r| <= n && |r| <= |s|
    ensures |r| == if |s| <= n then |s| else n
    ensures forall i | 0 <= i < |r| :: r[i] == s[i]
  {
    if |s| <= n then s else s[..n]
  }
}
