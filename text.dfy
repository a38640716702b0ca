/**
 Substring containment: the meaning the model gives to SQL's `column LIKE '%keyword%'`.
 */
module Text {

  /** `s` holds `keyword` starting at position `i`. */
  ghost predicate OccursAt(s: string, keyword: string, i: int)
  {
    0 <= i && i + |keyword| <= |s| && s[i..i + |keyword|] == keyword
  }

  /** `s` holds `keyword` somewhere. */
  ghost predicate IsSubstring(s: string, keyword: string)
  {
    exists i :: OccursAt(s, keyword, i)
  }

  /** An occurrence in `s[1..]` is an occurrence in `s` one position further on, and back. */
  lemma ShiftOccurrence(s: string, keyword: string)
    requires |s| > 0
    ensures IsSubstring(s, keyword) <==> OccursAt(s, keyword, 0) || IsSubstring(s[1..], keyword)
  {
    if IsSubstring(s, keyword) && !OccursAt(s, keyword, 0) {
      var i :| OccursAt(s, keyword, i);
      assert s[1..][i - 1..i - 1 + |keyword|] == s[i..i + |keyword|];
      assert OccursAt(s[1..], keyword, i - 1);
    }
    if IsSubstring(s[1..], keyword) {
      var j :| OccursAt(s[1..], keyword, j);
      assert s[j + 1..j + 1 + |keyword|] == s[1..][j..j + |keyword|];
      assert OccursAt(s, keyword, j + 1);
    }
  }

  /** Decides containment by trying each start position from the left. */
  function Contains(s: string, keyword: string): (b: bool)
    ensures b <==> IsSubstring(s, keyword)
    decreases |s|
  {
    if |keyword| > |s| then
      assert forall i :: !OccursAt(s, keyword, i);
      false
    else if s[..|keyword|] == keyword then
      assert OccursAt(s, keyword, 0);
      true
    else
      ShiftOccurrence(s, keyword);
      Contains(s[1..], keyword)
  }

  /** The empty keyword occurs in every text, so `LIKE '%%'` keeps every row. */
  lemma EmptyKeywordEverywhere(s: string)
    ensures Contains(s, "")
  {
  }
}
