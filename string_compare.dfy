/**
 * The string-similarity abstraction the matching engine is parameterised by
 * (the abstract class StringCompare): a metric is any function on two strings
 * whose scores lie between 0.0 ("not at all") and 1.0 ("identical").
 */
module StringCompare {
  import opened JavaStrings

  ghost predicate IsSimilarityMetric(compare: (JString, JString) -> real)
  {
    forall a, b :: 0.0 <= compare(a, b) <= 1.0
  }
}
