/** Outcome of the transform: a value, or the `IndexError` Python raises when
    the rebuild loop of `reverse_word` reads past the end of a list. Nothing in
    `reverse_text_sense_preserved` catches it, so it ends the whole call. */
module Results {

  datatype Result<T> = Ok(value: T) | IndexError

  /** `[f(x) for x in xs]` where `f` may raise: the images in order, or the
      error as soon as one element raises. */
  function MapAll<T, U>(f: T -> Result<U>, xs: seq<T>): (r: Result<seq<U>>)
    ensures r.Ok? <==> forall k :: 0 <= k < |xs| ==> f(xs[k]).Ok?
    ensures r.Ok? ==> |r.value| == |xs| && forall k :: 0 <= k < |xs| ==> r.value[k] == f(xs[k]).value
  {
    if xs == [] then Ok([])
    else
      match f(xs[0])
      case IndexError => IndexError
      case Ok(y) =>
        match MapAll(f, xs[1..])
        case IndexError => IndexError
        case Ok(ys) => Ok([y] + ys)
  }
}
