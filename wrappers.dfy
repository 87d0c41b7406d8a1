/** Failure-compatible datatypes shared by the model. */
module Wrappers {

  datatype Option<+T> = None | Some(value: T)

  /** The outcome of a computation that may throw: a value or the error it threw. */
  datatype Result<+T, +E> = Success(value: T) | Failure(error: E) {
    predicate IsFailure() { Failure? }

    function PropagateFailure<U>(): Result<U, E>
      requires Failure?
    {
      Failure(error)
    }

    function Extract(): T
      requires Success?
    {
      value
    }
  }

  /** The settled state of an awaited I/O promise. */
  datatype Fetch<+T> = Rejected | Resolved(value: T)

  /**
   * The results of an element-wise conversion taken together: all the
   * values when every conversion succeeds, otherwise the first failure.
   */
  function Collect<T, E>(rs: seq<Result<T, E>>): (r: Result<seq<T>, E>)
    ensures r.Success? <==> forall i :: 0 <= i < |rs| ==> rs[i].Success?
    ensures r.Success? ==> |r.value| == |rs| && forall i :: 0 <= i < |rs| ==> r.value[i] == rs[i].value
  {
    if rs == [] then Success([])
    else match rs[0]
      case Failure(e) => Failure(e)
      case Success(v) =>
        match Collect(rs[1..])
        case Failure(e) =>
          assert forall j :: 1 <= j < |rs| ==> rs[1..][j - 1] == rs[j];
          Failure(e)
        case Success(vs) => Success([v] + vs)
  }

  /** Where a failed `Collect` failed. */
  lemma FailingIndex<T, E>(rs: seq<Result<T, E>>) returns (i: nat)
    requires Collect(rs).Failure?
    ensures i < |rs| && rs[i].Failure?
  {
    i :| 0 <= i < |rs| && rs[i].Failure?;
  }

  /** A failure is the first failing element's. */
  lemma {:induction false} CollectFailsAtFirst<T, E>(rs: seq<Result<T, E>>)
    requires Collect(rs).Failure?
    ensures exists i :: 0 <= i < |rs| && rs[i] == Failure(Collect(rs).error)
                        && forall j :: 0 <= j < i ==> rs[j].Success?
  {
    if rs[0].Success? {
      CollectFailsAtFirst(rs[1..]);
      var i :| 0 <= i < |rs[1..]| && rs[1..][i] == Failure(Collect(rs[1..]).error)
               && forall j :: 0 <= j < i ==> rs[1..][j].Success?;
      assert rs[i + 1] == rs[1..][i];
      assert forall j :: 1 <= j < i + 1 ==> rs[j] == rs[1..][j - 1];
    }
  }
}
