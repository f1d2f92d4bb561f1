/** Option and Result values used for the error returns of the modelled Go code. */
module Wrappers {

  datatype Option<+T> = None | Some(value: T)

  /** A Go `(value, error)` pair: either a value or an error, never both. */
  datatype Result<+T, +E> = Ok(value: T) | Err(error: E)

  /** A Go `error` return on its own: nil (Pass) or a failure. */
  datatype Outcome<+E> = Pass | Fail(error: E)

  /** An order in which `range` may visit the keys of `m`: each key exactly once. */
  predicate IterationOrder<K, V>(m: map<K, V>, order: seq<K>) {
    (forall k :: k in m ==> k in order) &&
    (forall k :: k in order ==> k in m) &&
    (forall i, j :: 0 <= i < j < |order| ==> order[i] != order[j])
  }

  /** A sequence without repetitions has as many elements as its set. */
  lemma {:induction false} DistinctCard<K>(s: seq<K>)
    requires forall i, j :: 0 <= i < j < |s| ==> s[i] != s[j]
    ensures |set k | k in s| == |s|
    decreases |s|
  {
    if s != [] {
      var t := s[1..];
      DistinctCard(t);
      assert (set k | k in s) == (set k | k in t) + {s[0]};
      assert forall j :: 0 <= j < |t| ==> t[j] == s[j + 1];
      assert s[0] !in t;
    } else {
      assert (set k | k in s) == {};
    }
  }

  /** An iteration order visits as many keys as the map has. */
  lemma IterationOrderLength<K, V>(m: map<K, V>, order: seq<K>)
    requires IterationOrder(m, order)
    ensures |order| == |m|
  {
    DistinctCard(order);
    assert (set k | k in order) == m.Keys;
  }
}
