/** Optional and fallible values: `null` returns and thrown errors of the source. */
module Wrappers {

  datatype Option<+T> = None | Some(value: T)

  /** The value as a list of zero or one element. */
  function OptionToSeq<T>(o: Option<T>): seq<T> {
    match o
    case Some(v) => [v]
    case None => []
  }

  /** Concatenation regrouped to the right. */
  lemma AppendAssoc<T>(a: seq<T>, b: seq<T>, c: seq<T>)
    ensures a + b + c == a + (b + c)
  {
  }

  datatype Result<+T, +E> = Ok(value: T) | Err(error: E)
}
