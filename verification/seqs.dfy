/** Facts about sequence concatenation shared by the string modules. */
module Seqs {

  /** Concatenation is associative; stated once so proofs can regroup a sum explicitly. */
  lemma AppendAssoc<T>(x: seq<T>, y: seq<T>, z: seq<T>)
    ensures (x + y) + z == x + (y + z)
  {
  }
}
