/** Substring search on strings, as used by the marker checks of the walk
    (Rust's `str::contains` with a string pattern). */
module Text {

  /** `pat` occurs in `text` starting at index `i`. */
  ghost predicate OccursAt(text: string, pat: string, i: int)
  {
    0 <= i && i + |pat| <= |text| && text[i..i + |pat|] == pat
  }

  predicate StartsWith(text: string, pat: string)
  {
    |pat| <= |text| && text[..|pat|] == pat
  }

  /** Dropping a first character that does not start an occurrence keeps
      exactly the other occurrences (shifted by one). */
  lemma ShiftOccurrence(text: string, pat: string)
    requires |text| > 0 && !StartsWith(text, pat)
    ensures (exists i :: OccursAt(text, pat, i)) <==> (exists j :: OccursAt(text[1..], pat, j))
  {
    if i :| OccursAt(text, pat, i) {
      assert i != 0;
      assert text[1..][i - 1..i - 1 + |pat|] == text[i..i + |pat|];
      assert OccursAt(text[1..], pat, i - 1);
    }
    if j :| OccursAt(text[1..], pat, j) {
      assert text[1..][j..j + |pat|] == text[j + 1..j + 1 + |pat|];
      assert OccursAt(text, pat, j + 1);
    }
  }

  /** Substring containment; the empty pattern is contained in every text. */
  function Contains(text: string, pat: string): (b: bool)
    ensures b <==> exists i :: OccursAt(text, pat, i)
    decreases |text|
  {
    if StartsWith(text, pat) then
      assert OccursAt(text, pat, 0);
      true
    else if |text| == 0 then
      false
    else
      ShiftOccurrence(text, pat);
      Contains(text[1..], pat)
  }
}
