/**
 * Ordinal case-insensitive comparison (`StringComparison.OrdinalIgnoreCase`),
 * restricted to ASCII letters: both sides are folded to lower case and then
 * compared character by character.
 */
module Text {

  function FoldChar(c: char): char {
    if 'A' <= c <= 'Z' then (c as int + 32) as char else c
  }

  function Fold(s: string): string {
    seq(|s|, i requires 0 <= i < |s| => FoldChar(s[i]))
  }

  /** `a.Equals(b, StringComparison.OrdinalIgnoreCase)` */
  predicate EqualsIgnoreCase(a: string, b: string) {
    Fold(a) == Fold(b)
  }

  /** The needle, folded, occurs in the folded haystack starting at position i. */
  predicate OccursAt(hay: string, needle: string, i: int) {
    0 <= i && i + |needle| <= |hay| && Fold(hay)[i..i + |needle|] == Fold(needle)
  }

  /** `hay.Contains(needle, StringComparison.OrdinalIgnoreCase)` */
  predicate ContainsIgnoreCase(hay: string, needle: string) {
    exists i | 0 <= i <= |hay| :: OccursAt(hay, needle, i)
  }

  /** Two strings equal up to case contain each other, so an equality test is subsumed by a containment test. */
  lemma EqualsImpliesContains(a: string, b: string)
    requires EqualsIgnoreCase(a, b)
    ensures ContainsIgnoreCase(a, b) && ContainsIgnoreCase(b, a)
  {
    assert |Fold(a)| == |a| && |Fold(b)| == |b|;
    assert OccursAt(a, b, 0) && OccursAt(b, a, 0);
  }
}
