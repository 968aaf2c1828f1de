/** The optional value used for every operation of the model that can fail:
    `None` stands for the exception the Java or Python code would raise;
    and one fact about sequences that several proofs share. */
module Wrappers {

  datatype Option<+T> = None | Some(value: T)

  /** Concatenation is associative. */
  lemma ConcatAssoc<T>(a: seq<T>, b: seq<T>, c: seq<T>)
    ensures a + (b + c) == (a + b) + c
  {
  }
}
