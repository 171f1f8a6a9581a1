/**
 * Case-insensitive substring search over question text, the meaning given
 * here to the SQL predicate `question ILIKE '%term%'`. Case is folded on
 * ASCII letters only.
 */
module Text {

  /** ASCII lower-casing of one character. */
  function LowerChar(c: char): char {
    if 'A' <= c <= 'Z' then (c as int - 'A' as int + 'a' as int) as char else c
  }

  /** ASCII lower-casing of a string. */
  function Lower(s: string): (r: string)
    ensures |r| == |s|
    ensures forall i :: 0 <= i < |s| ==> r[i] == LowerChar(s[i])
  {
    seq(|s|, i requires 0 <= i < |s| => LowerChar(s[i]))
  }

  /** `pat` occurs in `text` starting at position `i`, exactly. */
  ghost predicate OccursAt(text: string, pat: string, i: int) {
    0 <= i && i + |pat| <= |text| && text[i..i + |pat|] == pat
  }

  /** `term` occurs in `text` starting at position `i`, ignoring case. */
  ghost predicate MatchesAt(text: string, term: string, i: int) {
    && 0 <= i && i + |term| <= |text|
    && forall k :: 0 <= k < |term| ==> LowerChar(text[i + k]) == LowerChar(term[k])
  }

  /** `term` occurs somewhere in `text`, ignoring case; the empty term
      occurs in every text. */
  ghost predicate Mentions(text: string, term: string) {
    exists i :: MatchesAt(text, term, i)
  }

  function StartsWith(text: string, pat: string): bool {
    |pat| <= |text| && text[..|pat|] == pat
  }

  /** Exact substring test, one start position at a time. */
  function Contains(text: string, pat: string): bool
    decreases |text|
  {
    StartsWith(text, pat) || (|text| > 0 && Contains(text[1..], pat))
  }

  /** Case-insensitive substring test: lower-case both sides, then search. */
  function ContainsIgnoringCase(text: string, term: string): (b: bool)
    ensures b <==> Mentions(text, term)
  {
    ContainsOccurs(Lower(text), Lower(term));
    LowerOccurs(text, term);
    Contains(Lower(text), Lower(term))
  }

  /** The search tries every start position: it succeeds exactly when the
      pattern occurs somewhere. */
  lemma {:induction false} ContainsOccurs(text: string, pat: string)
    ensures Contains(text, pat) <==> exists i :: OccursAt(text, pat, i)
    decreases |text|
  {
    assert OccursAt(text, pat, 0) <==> StartsWith(text, pat);
    if |text| == 0 {
      forall i | OccursAt(text, pat, i) ensures i == 0 { }
    } else {
      var tail := text[1..];
      ContainsOccurs(tail, pat);
      forall i | 0 <= i
        ensures OccursAt(text, pat, i + 1) <==> OccursAt(tail, pat, i)
      {
        OccursInTail(text, pat, i);
      }
      if Contains(text, pat) && !StartsWith(text, pat) {
        var j :| OccursAt(tail, pat, j);
        assert OccursAt(text, pat, j + 1);
      }
      if !StartsWith(text, pat) {
        forall i | OccursAt(text, pat, i) ensures OccursAt(tail, pat, i - 1) { }
      }
    }
  }

  /** An occurrence one position into `text` is an occurrence in its tail. */
  lemma OccursInTail(text: string, pat: string, i: nat)
    requires |text| > 0
    ensures OccursAt(text, pat, i + 1) <==> OccursAt(text[1..], pat, i)
  {
    var tail := text[1..];
    if i + 1 + |pat| <= |text| {
      var inText, inTail := text[i + 1..i + 1 + |pat|], tail[i..i + |pat|];
      forall m | 0 <= m < |pat| ensures inText[m] == inTail[m] { }
      assert inText == inTail;
    }
  }

  /** Lower-casing both sides turns an exact occurrence into a
      case-insensitive one and back. */
  lemma LowerOccurs(text: string, term: string)
    ensures (exists i :: OccursAt(Lower(text), Lower(term), i)) <==> Mentions(text, term)
  {
    var lt, lp := Lower(text), Lower(term);
    forall i | MatchesAt(text, term, i) ensures OccursAt(lt, lp, i) {
      assert lt[i..i + |lp|] == lp;
    }
    forall i | OccursAt(lt, lp, i) ensures MatchesAt(text, term, i) {
      forall k | 0 <= k < |term| ensures LowerChar(text[i + k]) == LowerChar(term[k]) {
        assert lt[i..i + |lp|][k] == lp[k];
      }
    }
  }
}
