/** Facts about sequences that the proofs of several modules share. */
module Seqs {

  lemma Assoc<T>(a: seq<T>, b: seq<T>, c: seq<T>)
    ensures (a + b) + c == a + (b + c)
  {
  }

  /** A tree's tokens inside an array: head, children, then the siblings to the right. */
  lemma Regroup<T>(p: seq<T>, t: seq<T>, k: seq<T>, r: seq<T>, q: seq<T>)
    ensures p + (t + k + r) + q == (p + t) + k + (r + q)
    ensures p + (t + k + r) + q == (p + t + k) + r + q
  {
  }
}
