/** Character and substring predicates shared by the scanners. */
module Text {

  /** The characters that a JavaScript regular expression's `.` does not match
      (without the `s` flag): LF, CR, LINE SEPARATOR and PARAGRAPH SEPARATOR. */
  predicate IsLineTerminator(c: char)
  {
    c == '\n' || c == '\r' || c == '\U{2028}' || c == '\U{2029}'
  }

  predicate NoLineTerminator(s: string)
  {
    forall i :: 0 <= i < |s| ==> !IsLineTerminator(s[i])
  }

  /** `pat` occurs in `text` starting at index `k`. */
  predicate OccursAt(pat: string, text: string, k: int)
  {
    0 <= k && k + |pat| <= |text| && text[k..k + |pat|] == pat
  }

  /** `pat` occurs somewhere in `text`. */
  predicate Contains(text: string, pat: string)
  {
    exists k :: 0 <= k <= |text| && OccursAt(pat, text, k)
  }

  function Min(a: int, b: int): int
  {
    if a <= b then a else b
  }

  function Max(a: int, b: int): int
  {
    if a <= b then b else a
  }
}
