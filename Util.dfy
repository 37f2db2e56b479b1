/** Small shared vocabulary: optional values (Java's nullable references) and
    distinctness of sequences. */
module Util {

  /** A value that may be absent; `None` plays the role of Java's `null`. */
  datatype Option<T> = None | Some(value: T)

  /** No element occurs twice in `s`. */
  ghost predicate Distinct<X>(s: seq<X>)
  {
    forall i, j :: 0 <= i < j < |s| ==> s[i] != s[j]
  }
}
