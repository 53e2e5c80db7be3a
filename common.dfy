/** Types and one search shared by every module of the model. */
module Common {
  datatype Option<+T> = None | Some(value: T)

  /** A value, or the message of the error that was raised instead. */
  datatype Result<+T> = Ok(value: T) | Err(msg: string)

  /** A coordinate as the database stores it: a decimal with eight places,
      held as an integer count of 10^-8 degrees. */
  type Coord = int

  /** Index of the first occurrence of `x` in `xs`, or |xs| when there is none
      (Ruby's `find`/`find_by` on a key, as an index). */
  function IndexOf<T(==)>(xs: seq<T>, x: T): (k: nat)
    ensures k <= |xs|
    ensures k < |xs| ==> xs[k] == x
    ensures forall j :: 0 <= j < k ==> xs[j] != x
    ensures k == |xs| <==> x !in xs
  {
    if xs == [] then 0
    else if xs[0] == x then 0
    else 1 + IndexOf(xs[1..], x)
  }

  /** Appending an element leaves an earlier first occurrence where it was. */
  lemma {:induction false} IndexOfAppend<T>(xs: seq<T>, e: T, x: T)
    ensures IndexOf(xs + [e], x) ==
      if IndexOf(xs, x) < |xs| then IndexOf(xs, x)
      else if e == x then |xs| else |xs| + 1
  {
    if xs != [] {
      assert (xs + [e])[1..] == xs[1..] + [e];
      IndexOfAppend(xs[1..], e, x);
    }
  }
}
