/** Counting the entries of a map that have not reached a value. */
module Counting {
  /** The keys whose value is not `end`. */
  ghost function Short<K, V>(m: map<K, V>, end: V): set<K> {
    set k | k in m && m[k] != end
  }

  /** An entry that has not reached the value is written, or a new one is added. */
  lemma {:induction false} ShortMoves<K, V>(m: map<K, V>, k: K, x: V, end: V)
    requires k in m ==> m[k] != end
    ensures |Short(m[k := x], end)| == |Short(m, end)| + (if k in m then 0 else 1) - (if x == end then 1 else 0)
  {
    if x == end {
      assert Short(m[k := x], end) == Short(m, end) - {k};
    } else {
      assert Short(m[k := x], end) == Short(m, end) + {k};
    }
  }

  lemma NoneShort<K, V>(m: map<K, V>, end: V)
    requires Short(m, end) == {}
    ensures forall k :: k in m ==> m[k] == end
  {
    assert forall k :: k in m ==> k !in Short(m, end);
  }
}
