/** Failure-carrying result types shared by the codec, the forwarder and the proxy. */
module Wrappers {

  /** A value that may be missing: a dropped datagram, an unparsable number. */
  datatype Option<+T> = None | Some(value: T)

  /** Either a value or the error that the source raises as an exception. */
  datatype Result<+T, +E> = Ok(value: T) | Err(error: E) {

    /** Forgets the error, keeping only whether a value was produced. */
    function ToOption(): Option<T>
    {
      match this
      case Ok(v) => Some(v)
      case Err(_) => None
    }
  }

  /** The position of the first element `f` fails on, or the length when it fails on none. */
  function FirstFailure<A, B, E>(xs: seq<A>, f: A -> Result<B, E>): (i: nat)
    ensures i <= |xs|
    ensures forall j :: 0 <= j < i ==> f(xs[j]).Ok?
    ensures i < |xs| ==> f(xs[i]).Err?
    decreases |xs|
  {
    if |xs| == 0 || f(xs[0]).Err? then 0
    else
      var i := 1 + FirstFailure(xs[1..], f);
      assert forall j :: 1 <= j < |xs| ==> xs[j] == xs[1..][j - 1];
      i
  }

  /** `f` applied to each element in order, stopping at the first error: LINQ's `Select(f).ToArray()` with a throwing `f`. */
  function MapAll<A, B, E>(xs: seq<A>, f: A -> Result<B, E>): (r: Result<seq<B>, E>)
    ensures r.Ok? <==> FirstFailure(xs, f) == |xs|
    ensures r.Ok? ==> |r.value| == |xs| && forall i :: 0 <= i < |xs| ==> r.value[i] == f(xs[i]).value
    ensures r.Err? ==> r.error == f(xs[FirstFailure(xs, f)]).error
    decreases |xs|
  {
    if |xs| == 0 then Ok([])
    else
      match f(xs[0])
      case Err(e) => Err(e)
      case Ok(first) =>
        match MapAll(xs[1..], f)
        case Err(e) => Err(e)
        case Ok(rest) =>
          var r := [first] + rest;
          assert forall i :: 1 <= i < |xs| ==> r[i] == rest[i - 1] && xs[i] == xs[1..][i - 1];
          Ok(r)
  }

  /** When `f` succeeds on every element, `MapAll` gives exactly the results, in order. */
  lemma MapAllSucceeds<A, B, E>(xs: seq<A>, f: A -> Result<B, E>, ys: seq<B>)
    requires |xs| == |ys|
    requires forall i :: 0 <= i < |xs| ==> f(xs[i]) == Ok(ys[i])
    ensures MapAll(xs, f) == Ok(ys)
  {
    var r := MapAll(xs, f);
    assert FirstFailure(xs, f) == |xs|;
    assert r.Ok?;
    assert r.value == ys;
  }
}
