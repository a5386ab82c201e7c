/** What several modules here share. */
module Basics {
  /** For a source `Option`. */
  datatype Option<+T> = None | Some(value: T)

  /** Nanoseconds in a second: every instant and time of day here counts them. */
  const NANOS: nat := 1_000_000_000

  /** One of the two is a prefix of the other. */
  predicate Nested<T(==)>(a: seq<T>, b: seq<T>) { a <= b || b <= a }

  lemma {:induction false} Regroup<T>(a: seq<T>, b: seq<T>, c: seq<T>)
    ensures a + (b + c) == a + b + c
  {}
}
