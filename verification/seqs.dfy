/**
 * Facts about sequences of any element type. Stated generically, they are
 * proved without comparing elements, which is cheap even where the elements
 * are themselves strings.
 */
module Seqs {

  /** A non-empty sequence is its head followed by its tail. */
  lemma HeadTail<T>(s: seq<T>)
    requires s != []
    ensures s == [s[0]] + s[1..]
  {
  }

  /** Putting the head back in front of the tail, followed by more. */
  lemma PrependTail<T>(s: seq<T>, ys: seq<T>)
    requires s != []
    ensures [s[0]] + (s[1..] + ys) == s + ys
  {
  }

  /** The last element of a concatenation with a non-empty right part is that part's last. */
  lemma LastOfAppend<T>(a: seq<T>, b: seq<T>)
    requires b != []
    ensures (a + b)[|a + b| - 1] == b[|b| - 1]
  {
  }

  /** A prefix one element longer. */
  lemma TakeOneMore<T>(s: seq<T>, j: nat)
    requires j < |s|
    ensures s[..j + 1] == s[..j] + [s[j]]
  {
  }

  /** The prefix as long as the sequence is the sequence. */
  lemma TakeAll<T>(s: seq<T>)
    ensures s[..|s|] == s
  {
  }
}
