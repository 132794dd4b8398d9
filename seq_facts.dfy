/** Small facts about sequences shared by the scan and repair proofs. */
module SeqFacts {
  /** Appending in two steps is appending the two parts at once. */
  lemma Regroup<T>(c: seq<T>, b: seq<T>, a: seq<T>, here: seq<T>, rest: seq<T>)
    requires c == b + rest && b == a + here
    ensures c == a + (here + rest)
  {
  }
}
