/** Option and Result, the failure-compatible wrappers the model uses for
    Python's `None` and for the exceptions the builders raise. */
module Wrappers {

  datatype Option<+T> = None | Some(value: T)

  datatype Result<+T, +E> = Success(value: T) | Failure(error: E) {

    predicate IsFailure() {
      Failure?
    }

    function PropagateFailure<U>(): Result<U, E>
      requires Failure?
    {
      Failure(error)
    }

    function Extract(): T
      requires Success?
    {
      value
    }
  }

  /** `[f(x) for x in xs]` where each `f(x)` may raise: the results in
      order, or the error of the first `x` that fails. */
  function MapResult<A, B(==), E(==)>(f: A -> Result<B, E>, xs: seq<A>): (r: Result<seq<B>, E>)
    ensures r.Success? ==> |r.value| == |xs| && forall i :: 0 <= i < |xs| ==> f(xs[i]) == Success(r.value[i])
    ensures r.Failure? ==> exists i :: 0 <= i < |xs| && f(xs[i]) == Failure(r.error)
                             && forall j :: 0 <= j < i ==> f(xs[j]).Success?
  {
    if xs == [] then Success([])
    else match f(xs[0])
      case Failure(e) => Failure(e)
      case Success(y) =>
        var rest := MapResult(f, xs[1..]);
        assert forall i :: 1 <= i < |xs| ==> xs[i] == xs[1..][i - 1];
        match rest
        case Failure(e) =>
          var i :| 0 <= i < |xs[1..]| && f(xs[1..][i]) == Failure(e)
                   && forall j :: 0 <= j < i ==> f(xs[1..][j]).Success?;
          assert f(xs[i + 1]) == Failure(e);
          Failure(e)
        case Success(ys) => Success([y] + ys)
  }

  /** A one-element map succeeds with the one result. */
  lemma MapResultSingle<A, B, E>(f: A -> Result<B, E>, x: A)
    requires f(x).Success?
    ensures MapResult(f, [x]) == Success([f(x).value])
  {
    assert [x][1..] == [];
    assert MapResult(f, [x][1..]) == Success([]);
    assert [f(x).value] + [] == [f(x).value];
  }
}
