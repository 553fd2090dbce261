/**
 * Case-insensitive identifier comparison, the test that icmpStrings and
 * strcasecmp perform when they return 0. Every stage of the executor
 * compares table and column names this way.
 */
module Names {

  /** tolower in the C locale: only 'A'..'Z' change. */
  function Lower(c: char): (d: char)
    ensures 'A' <= c <= 'Z' ==> 'a' <= d <= 'z' && d as int == c as int + 32
    ensures !('A' <= c <= 'Z') ==> d == c
  {
    if 'A' <= c <= 'Z' then (c as int + 32) as char else c
  }

  /** The two names agree character by character once both are lower-cased. */
  predicate EqualsIgnoreCase(a: string, b: string)
  {
    |a| == |b| && forall k :: 0 <= k < |a| ==> Lower(a[k]) == Lower(b[k])
  }

  lemma EqualsIgnoreCaseReflexive(a: string)
    ensures EqualsIgnoreCase(a, a)
  {
  }

  lemma EqualsIgnoreCaseSymmetric(a: string, b: string)
    ensures EqualsIgnoreCase(a, b) <==> EqualsIgnoreCase(b, a)
  {
  }

  lemma EqualsIgnoreCaseTransitive(a: string, b: string, c: string)
    requires EqualsIgnoreCase(a, b) && EqualsIgnoreCase(b, c)
    ensures EqualsIgnoreCase(a, c)
  {
  }

  /** Names equal to the same name up to case agree on every other name. */
  lemma EqualsIgnoreCaseClasses(a: string, b: string, c: string)
    requires EqualsIgnoreCase(a, b)
    ensures EqualsIgnoreCase(a, c) <==> EqualsIgnoreCase(b, c)
  {
    if EqualsIgnoreCase(a, c) {
      EqualsIgnoreCaseSymmetric(a, b);
      EqualsIgnoreCaseTransitive(b, a, c);
    }
    if EqualsIgnoreCase(b, c) {
      EqualsIgnoreCaseTransitive(a, b, c);
    }
  }
}
