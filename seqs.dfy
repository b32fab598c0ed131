/** Concatenation facts that the larger proofs call by name, so that each
    such step is checked in a small context. */
module Seqs {
  lemma AppendAssoc<T>(x: seq<T>, y: seq<T>, z: seq<T>)
    ensures (x + y) + z == x + (y + z)
  {
  }

  /** An empty run in the middle of a concatenation can be dropped. */
  lemma DropEmptyMiddle<T>(x: seq<T>, m: seq<T>, y: seq<T>)
    requires m == []
    ensures x + m + y == x + y
  {
  }
}
