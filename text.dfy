/**
 * String primitives used by the queries and the validators: ASCII case folding (SQL `LOWER` on
 * the ASCII range, and the `i` flag of a non-Unicode JavaScript regular expression), substring
 * search (`LIKE '%q%'` without wildcards in q), whole-word search (`\b...\b`) and the
 * lexicographic collation that stands for the database's ordering of text columns.
 */
module Text {

  predicate IsLower(c: char) { 'a' <= c <= 'z' }
  predicate IsUpper(c: char) { 'A' <= c <= 'Z' }
  predicate IsDigit(c: char) { '0' <= c <= '9' }

  /** The characters of `\w`: ASCII letters, digits and the underscore. */
  predicate IsWordChar(c: char) { IsLower(c) || IsUpper(c) || IsDigit(c) || c == '_' }

  function LowerChar(c: char): char {
    if IsUpper(c) then (c as int + 32) as char else c
  }

  function Lower(s: string): string {
    seq(|s|, i requires 0 <= i < |s| => LowerChar(s[i]))
  }

  /** `needle` occurs in `hay` starting at index i. */
  predicate OccursAt(hay: string, needle: string, i: int) {
    0 <= i && i + |needle| <= |hay| && hay[i..i + |needle|] == needle
  }

  predicate Contains(hay: string, needle: string) {
    exists i | 0 <= i <= |hay| - |needle| :: OccursAt(hay, needle, i)
  }

  /**
   * The lower-case word `w` occurs in `s` at index i, ignoring ASCII case, with a word boundary on
   * each side: the neighbouring characters, where there are any, are not word characters.
   */
  predicate WordAt(s: string, w: string, i: int) {
    && 0 <= i && i + |w| <= |s|
    && Lower(s[i..i + |w|]) == w
    && (i == 0 || !IsWordChar(s[i - 1]))
    && (i + |w| == |s| || !IsWordChar(s[i + |w|]))
  }

  predicate ContainsWord(s: string, w: string) {
    exists i | 0 <= i <= |s| - |w| :: WordAt(s, w, i)
  }

  /** Lexicographic order on character codes: the model's collation for text columns. */
  predicate TextLe(a: string, b: string) {
    |a| == 0 || (|b| > 0 && (a[0] < b[0] || (a[0] == b[0] && TextLe(a[1..], b[1..]))))
  }

  lemma {:induction false} TextLeTotal(a: string, b: string)
    ensures TextLe(a, b) || TextLe(b, a)
  {
    if |a| > 0 && |b| > 0 && a[0] == b[0] {
      TextLeTotal(a[1..], b[1..]);
    }
  }

  lemma {:induction false} TextLeTransitive(a: string, b: string, c: string)
    requires TextLe(a, b) && TextLe(b, c)
    ensures TextLe(a, c)
  {
    if |a| > 0 && a[0] == b[0] && b[0] == c[0] {
      TextLeTransitive(a[1..], b[1..], c[1..]);
    }
  }
}
