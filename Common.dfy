/** Types shared by the three pages of the awards-voting front end. */
module Common {

  /** Server-assigned identifier of a category, a nominee or a voter.
      The pages compare ids either directly or through `String(id)`;
      both coincide on this one type. Ids are never 0, so every id is
      truthy and a key present in a map is a set entry. */
  type Id = x: nat | x > 0 witness 1

  datatype Option<+T> = None | Some(value: T)

  /** `a` is obtained from `b` by deleting elements, without reordering. */
  ghost predicate IsSubsequence<T>(a: seq<T>, b: seq<T>)
    decreases |b|
  {
    a == [] ||
    (b != [] &&
     ((a[0] == b[0] && IsSubsequence(a[1..], b[1..])) || IsSubsequence(a, b[1..])))
  }
}
