/**
 * The comparator that orders a Results table by score (class
 * ValueComparator): it looks both keys up in a shared map and never
 * reports two keys as equal.
 */
module ValueComparators {

  /** compare(a, b): -1 when base[a] <= base[b], 1 otherwise. */
  function Compare<K>(base: map<K, real>, a: K, b: K): (r: int)
    requires a in base && b in base
    ensures r == -1 || r == 1
    ensures r == -1 <==> base[a] <= base[b]
  {
    if base[a] <= base[b] then -1 else 1
  }

  /** A key compares as smaller than itself: inconsistent with equals. */
  lemma SelfIsSmaller<K>(base: map<K, real>, a: K)
    requires a in base
    ensures Compare(base, a, a) == -1
  {
  }

  /** With different scores the comparison is antisymmetric. */
  lemma AntisymmetricOnDistinctScores<K>(base: map<K, real>, a: K, b: K)
    requires a in base && b in base && base[a] != base[b]
    ensures Compare(base, a, b) == -Compare(base, b, a)
  {
  }

  /** With equal scores both orders report "smaller". */
  lemma TiesCompareSmallerBothWays<K>(base: map<K, real>, a: K, b: K)
    requires a in base && b in base && base[a] == base[b]
    ensures Compare(base, a, b) == -1 && Compare(base, b, a) == -1
  {
  }
}
