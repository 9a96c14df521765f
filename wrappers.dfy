/** Small definitions shared by the iterator and the documentation printer. */
module Wrappers {

  /** A value that may be absent: a null pointer, or `npos` from a search. */
  datatype Option<+T> = None | Some(value: T)

  /** Regrouping a concatenation of three sequences. */
  lemma Assoc<T>(a: seq<T>, b: seq<T>, c: seq<T>)
    ensures a + b + c == a + (b + c)
  {
  }
}
