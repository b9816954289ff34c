/** Joining sequences in a loop. */
module Sequences {
  /** What is done, with the next piece added, still completes the whole. */
  lemma Advance<T>(done: seq<T>, piece: seq<T>, rest: seq<T>)
    ensures done + (piece + rest) == (done + piece) + rest
  {}

  lemma Finished<T>(done: seq<T>)
    ensures done + [] == done
  {}
}
