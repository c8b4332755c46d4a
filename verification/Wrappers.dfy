/** Option and Result, and the propagation of the first error out of a sequence of results. */
module Wrappers {

  datatype Option<+T> = None | Some(value: T)

  datatype Result<+T, +E> = Ok(value: T) | Err(error: E)

  /** `rs[i]` is the first error of `rs`. */
  ghost predicate FirstError<T, E>(rs: seq<Result<T, E>>, i: nat) {
    i < |rs| && rs[i].Err? && forall j | 0 <= j < i :: rs[j].Ok?
  }

  /** The values of a sequence of results, or its first error (`collect::<Result<Vec<_>, _>>`). */
  function Collect<T, E>(rs: seq<Result<T, E>>): (r: Result<seq<T>, E>)
    ensures r.Ok? <==> forall i | 0 <= i < |rs| :: rs[i].Ok?
    ensures r.Ok? ==> |r.value| == |rs|
    ensures r.Ok? ==> forall i | 0 <= i < |rs| :: r.value[i] == rs[i].value
    ensures r.Err? ==> exists i: nat :: FirstError(rs, i) && rs[i].error == r.error
  {
    if rs == [] then Ok([])
    else if rs[0].Err? then
      assert FirstError(rs, 0);
      Err(rs[0].error)
    else
      var rest := Collect(rs[1..]);
      assert forall i | 1 <= i < |rs| :: rs[i] == rs[1..][i - 1];
      if rest.Err? then
        assert forall i: nat :: FirstError(rs[1..], i) ==> FirstError(rs, i + 1);
        Err(rest.error)
      else Ok([rs[0].value] + rest.value)
  }
}
