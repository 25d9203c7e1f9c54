/** Small facts about sequences, stated once for any element type so that
    they are proved away from the records and texts they are used on. */
module Sequences {
  lemma EmptyPrefix<T>(x: seq<T>)
    ensures [] + x == x
  {
  }

  lemma Regroup<T>(x: seq<T>, y: seq<T>, z: seq<T>)
    ensures x + (y + z) == (x + y) + z
  {
  }

  /** A non-empty sequence is its front followed by its last element. */
  lemma SplitLast<T>(x: seq<T>)
    requires |x| > 0
    ensures x == x[..|x| - 1] + [x[|x| - 1]]
  {
  }

  /** The last element of `x + [e]` is `e`. */
  lemma LastOfAppend<T>(x: seq<T>, e: T)
    ensures |x + [e]| > 0 && (x + [e])[|x + [e]| - 1] == e
  {
  }
}
