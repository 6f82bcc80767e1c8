/**
 * The keyword test on recognised text: `if keyword in text:` with
 * `keyword = 'Tesseract'`, choosing one of two messages.
 */
module KeywordMatch {

  /** The keyword the script looks for. */
  const Keyword: string := "Tesseract"

  /** The two branches of the test. */
  datatype Outcome = Found | NotFound

  /** `kw` occurs in `text` starting at index `i`. */
  predicate OccursAt(text: string, kw: string, i: int)
  {
    0 <= i && i + |kw| <= |text| && text[i..i + |kw|] == kw
  }

  /** `kw` is a contiguous substring of `text`. */
  ghost predicate Occurs(text: string, kw: string)
  {
    exists i :: OccursAt(text, kw, i)
  }

  /** Python's `kw in text` for strings: try every start position, left to right. */
  function Contains(text: string, kw: string): (b: bool)
    ensures b <==> Occurs(text, kw)
    ensures |text| < |kw| ==> !b
    decreases |text|
  {
    if |text| < |kw| then false
    else if text[..|kw|] == kw then
      assert OccursAt(text, kw, 0);
      true
    else
      ShiftOccurs(text, kw);
      Contains(text[1..], kw)
  }

  /** When `kw` is not a prefix of `text`, its occurrences are those in `text[1..]`, one further right. */
  lemma ShiftOccurs(text: string, kw: string)
    requires |text| >= |kw| && text[..|kw|] != kw
    ensures Occurs(text, kw) <==> Occurs(text[1..], kw)
  {
    if i :| OccursAt(text, kw, i) {
      assert i != 0;
      assert text[1..][i - 1..i - 1 + |kw|] == text[i..i + |kw|];
      assert OccursAt(text[1..], kw, i - 1);
    }
    if i :| OccursAt(text[1..], kw, i) {
      assert text[i + 1..i + 1 + |kw|] == text[1..][i..i + |kw|];
      assert OccursAt(text, kw, i + 1);
    }
  }

  /** The branch the script takes for the recognised text. */
  function MatchText(text: string): (o: Outcome)
    ensures o == Found <==> Occurs(text, Keyword)
    ensures o == NotFound <==> !Occurs(text, Keyword)
  {
    if Contains(text, Keyword) then Found else NotFound
  }

  /** A text shorter than the keyword never takes the "found" branch. */
  lemma ShortTextNotFound(text: string)
    requires |text| < |Keyword|
    ensures MatchText(text) == NotFound
  {
  }

  /** The match is exact: a text that is the keyword in another letter case is not a match. */
  lemma {:induction false} CaseSensitive()
    ensures MatchText("tesseract") == NotFound
    ensures MatchText("TESSERACT") == NotFound
  {
    assert "tesseract"[0..9][0] != Keyword[0];
    assert "TESSERACT"[0..9][1] != Keyword[1];
  }

  /** The keyword at the start of the text is found; "OCR" is not in that text. */
  lemma {:induction false} GreatExample()
    ensures MatchText("Tesseract is great") == Found
    ensures !Contains("Tesseract is great", "OCR")
  {
    assert OccursAt("Tesseract is great", Keyword, 0);
    AbsentFirstChar("Tesseract is great", "OCR");
  }

  /** A keyword whose first character does not appear in the text does not occur in it. */
  lemma AbsentFirstChar(text: string, kw: string)
    requires |kw| > 0 && forall i :: 0 <= i < |text| ==> text[i] != kw[0]
    ensures !Occurs(text, kw)
  {
    forall i | OccursAt(text, kw, i)
      ensures false
    {
      OccurrenceStartsWith(text, kw, i);
    }
  }

  lemma OccurrenceStartsWith(text: string, kw: string, i: int)
    requires |kw| > 0 && OccursAt(text, kw, i)
    ensures i < |text| && text[i] == kw[0]
  {
    assert text[i..i + |kw|][0] == kw[0];
  }
}
