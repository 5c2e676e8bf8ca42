/** The optional value used wherever the pipeline answers "no value". */
module Wrappers {

  datatype Option<+T> = None | Some(value: T)

  /** Concatenation re-associates. */
  lemma AppendAssoc<T>(a: seq<T>, b: seq<T>, c: seq<T>)
    ensures (a + b) + c == a + (b + c)
  {
  }
}
