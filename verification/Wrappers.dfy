/** Results of operations that the C++ code reports by std::optional or by throwing. */
module Wrappers {

  datatype Option<+T> = None | Some(value: T)
  {
    function GetOr(default: T): T { if Some? then value else default }
  }

  datatype Result<+T, +E> = Ok(value: T) | Err(error: E)

  function Min(a: nat, b: nat): nat { if a <= b then a else b }

  function Max(a: nat, b: nat): nat { if a <= b then b else a }

  lemma Regrouped<T>(a: seq<T>, b: seq<T>, c: seq<T>)
    ensures (a + b) + c == a + (b + c)
  {
  }

  lemma Halves<T>(s: seq<T>, k: nat)
    requires k <= |s|
    ensures s[..k] + s[k..] == s
  {
  }

  lemma NothingAround<T>(xs: seq<T>)
    ensures [] + xs == xs && xs + [] == xs
  {
  }

  /** A result that may be missing, after `front`. */
  function Prepend<T>(front: seq<T>, r: Option<seq<T>>): Option<seq<T>> {
    match r case None => None case Some(rest) => Some(front + rest)
  }

  lemma PrependNothing<T>(r: Option<seq<T>>)
    ensures Prepend([], r) == r
  {
    if r.Some? { NothingAround(r.value); }
  }

  lemma PrependBoth<T>(a: seq<T>, b: seq<T>, r: Option<seq<T>>)
    ensures Prepend(a, Prepend(b, r)) == Prepend(a + b, r)
  {
    if r.Some? { Regrouped(a, b, r.value); }
  }

  /** A result or an error, after `front`. */
  function PrependOk<T, E>(front: seq<T>, r: Result<seq<T>, E>): Result<seq<T>, E> {
    match r case Err(error) => Err(error) case Ok(rest) => Ok(front + rest)
  }

  lemma PrependOkNothing<T, E>(r: Result<seq<T>, E>)
    ensures PrependOk([], r) == r
  {
    if r.Ok? { NothingAround(r.value); }
  }

  lemma PrependOkBoth<T, E>(a: seq<T>, b: seq<T>, r: Result<seq<T>, E>)
    ensures PrependOk(a, PrependOk(b, r)) == PrependOk(a + b, r)
  {
    if r.Ok? { Regrouped(a, b, r.value); }
  }

  /** A result with a state, after `front`. */
  function Follow<T, S>(front: seq<T>, r: (seq<T>, S)): (seq<T>, S) { (front + r.0, r.1) }

  lemma FollowNothing<T, S>(r: (seq<T>, S), a: seq<T>, s: S)
    ensures Follow([], r) == r && Follow(a, ([], s)) == (a, s)
  {
    NothingAround(r.0);
    NothingAround(a);
  }

  lemma FollowOn<T, S>(a: seq<T>, b: seq<T>, r: (seq<T>, S))
    ensures Follow(a, (b + r.0, r.1)) == Follow(a + b, r)
  {
    Regrouped(a, b, r.0);
  }
}
