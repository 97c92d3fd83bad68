/** Sequence facts shared by the models: Python's `list.reverse()` as a function on values, and distinct elements. */
module Sequences {

  /** The elements of `s` in the opposite order. */
  function Reversed<T>(s: seq<T>): (r: seq<T>)
    ensures |r| == |s| && forall k | 0 <= k < |s| :: r[k] == s[|s| - 1 - k]
  {
    if s == [] then [] else Reversed(s[1..]) + [s[0]]
  }

  lemma ReversedCons<T>(a: T, s: seq<T>)
    ensures Reversed([a] + s) == Reversed(s) + [a]
  {
    assert ([a] + s)[1..] == s;
  }

  /** No element occurs twice. */
  ghost predicate Distinct<T>(s: seq<T>) {
    forall i, j | 0 <= i < j < |s| :: s[i] != s[j]
  }

  /** The elements of `s` as a set, e.g. the objects a frame names. */
  ghost function Objects<T>(s: seq<T>): set<T> {
    set x | x in s
  }
}
