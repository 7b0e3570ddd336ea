/** Optional values and fallible results, usable with `:-`. */
module Wrappers {

  datatype Option<+T> = None | Some(value: T) {
    predicate IsFailure() { None? }

    function PropagateFailure<U>(): Option<U>
      requires None?
    {
      None
    }

    function Extract(): T
      requires Some?
    {
      value
    }
  }

  datatype Result<+T, +E> = Success(value: T) | Failure(error: E) {
    predicate IsFailure() { Failure? }

    function PropagateFailure<U>(): Result<U, E>
      requires Failure?
    {
      Failure(error)
    }

    function Extract(): T
      requires Success?
    {
      value
    }
  }

  /** `f` applied to each element in order, stopping at the first failure. */
  function Traverse<A, B(==), E(==)>(xs: seq<A>, f: A -> Result<B, E>): (r: Result<seq<B>, E>)
    ensures r.Success? <==> forall i :: 0 <= i < |xs| ==> f(xs[i]).Success?
    ensures r.Success? ==> |r.value| == |xs| && forall i :: 0 <= i < |xs| ==> f(xs[i]) == Success(r.value[i])
    ensures r.Failure? ==>
      exists i :: 0 <= i < |xs| && f(xs[i]) == Failure(r.error) && forall k :: 0 <= k < i ==> f(xs[k]).Success?
  {
    if |xs| == 0 then Success([])
    else
      match f(xs[0])
      case Failure(e) => Failure(e)
      case Success(y) =>
        match Traverse(xs[1..], f)
        case Failure(e) =>
          var i :| 0 <= i < |xs[1..]| && f(xs[1..][i]) == Failure(e) && forall k :: 0 <= k < i ==> f(xs[1..][k]).Success?;
          assert f(xs[i + 1]) == Failure(e);
          assert forall k :: 1 <= k < i + 1 ==> f(xs[k]).Success? by {
            forall k | 1 <= k < i + 1
              ensures f(xs[k]).Success?
            {
              assert xs[k] == xs[1..][k - 1];
            }
          }
          Failure(e)
        case Success(ys) =>
          assert forall i :: 1 <= i < |xs| ==> xs[i] == xs[1..][i - 1];
          Success([y] + ys)
  }
}

/** The exceptions the workbook code raises, one constructor per raise site kind. */
module Errors {

  datatype Error =
    | SheetNotFound(name: string)       // ValueError: no sheet under that name
    | SheetExists(name: string)         // ValueError: rename target already taken
    | UnsupportedFormat(ext: string)    // ValueError: extension not csv, tsv or xlsx
    | BadRangeToken(token: string)      // ValueError from int() or from unpacking "a-b"
    | IndexOutOfRange(index: int)       // IndexError on the list of sheet names
    | NotAString(column: string)        // AttributeError: .split on a non-string cell
}
