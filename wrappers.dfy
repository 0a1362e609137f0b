/** Optional values, standing in for C#'s `null` and for `TryParse`'s `false` result. */
module Wrappers {

  datatype Option<+T> = None | Some(value: T)

}

/**
 * Two facts about sequence concatenation, proved here once, away from any
 * definitions that would make the solver's search for them expensive.
 */
module Sequences {

  lemma SplitAt<T>(x: seq<T>, k: nat)
    requires k <= |x|
    ensures x == x[..k] + x[k..]
  {
  }

  lemma ConcatAssociative<T>(x: seq<T>, y: seq<T>, z: seq<T>)
    ensures x + (y + z) == (x + y) + z
  {
  }
}
