/** Facts about sequences that several proofs share. */
module Sequences {

  /** Concatenation regrouped; stated once so that proofs about long string
      literals need not rediscover it element by element. */
  lemma Associative<T>(a: seq<T>, b: seq<T>, c: seq<T>)
    ensures (a + b) + c == a + (b + c)
  {
  }
}
