/** Result types shared by the two HTTP routes and the onboarding step. */
module Results {

  /** A value that may be absent (`null`/`undefined` in the TypeScript routes, or NaN where a number was expected). */
  datatype Option<+T> = None | Some(value: T) {
    function GetOr(default: T): T {
      match this
      case Some(v) => v
      case None => default
    }
  }

  /** All the values, when every one is present; None as soon as one is absent. */
  function AllSome<T>(xs: seq<Option<T>>): (r: Option<seq<T>>)
    ensures r.Some? <==> forall i :: 0 <= i < |xs| ==> xs[i].Some?
    ensures r.Some? ==> |r.value| == |xs|
    ensures r.Some? ==> forall i :: 0 <= i < |xs| ==> xs[i] == Some(r.value[i])
  {
    if xs == [] then Some([])
    else
      match (xs[0], AllSome(xs[1..]))
      case (Some(x), Some(rest)) =>
        assert forall i :: 1 <= i < |xs| ==> xs[i] == xs[1..][i - 1];
        Some([x] + rest)
      case (None, _) => None
      case (_, None) =>
        assert forall i :: 1 <= i < |xs| ==> xs[i] == xs[1..][i - 1];
        None
  }

  /** A route's answer: the JSON payload on success, or the HTTP status and the `error` text. */
  datatype Response<+T> = Ok(value: T) | Fail(status: int, message: string)

  /** HTTP statuses the routes answer with. */
  const BadRequest := 400
  const NotFound := 404
  const Conflict := 409
  const InternalError := 500
}
