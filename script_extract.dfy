/**
 * Extracting the detected script name from orientation/script-detection
 * output, as `re.search('(?<=Script: )[a-zA-Z]+', osd_output).group(0)` does:
 * the leftmost position preceded by the label "Script: " at which an ASCII
 * letter starts, and from there the longest run of ASCII letters. When there
 * is no such position `re.search` returns `None` and `.group(0)` raises, which
 * the model reports as `None`.
 */
module ScriptExtract {
  import opened Wrappers

  /** The look-behind label; eight characters. */
  const Marker: string := "Script: "

  /** The character class `[a-zA-Z]`. */
  predicate IsAsciiLetter(c: char)
  {
    ('a' <= c <= 'z') || ('A' <= c <= 'Z')
  }

  predicate AllLetters(s: string)
  {
    forall i :: 0 <= i < |s| ==> IsAsciiLetter(s[i])
  }

  /** The label occurs in `s` starting at index `i`. */
  predicate MarkerAt(s: string, i: int)
  {
    0 <= i && i + |Marker| <= |s| && s[i..i + |Marker|] == Marker
  }

  /** The pattern can start matching at `p`: the look-behind holds and `[a-zA-Z]+` matches at least one letter. */
  predicate MatchStart(s: string, p: int)
  {
    |Marker| <= p < |s| && MarkerAt(s, p - |Marker|) && IsAsciiLetter(s[p])
  }

  /** `name` is the greedy letter run starting at `p`: non-empty, all letters, not followed by a letter. */
  predicate MaximalRunAt(s: string, p: int, name: string)
  {
    0 <= p && p + |name| <= |s| && s[p..p + |name|] == name && |name| >= 1 && AllLetters(name)
    && (p + |name| == |s| || !IsAsciiLetter(s[p + |name|]))
  }

  /** What `re.search` reports: the match at the leftmost start, extended greedily. */
  ghost predicate ExtractedAt(s: string, p: int, name: string)
  {
    MatchStart(s, p) && (forall q :: 0 <= q < p ==> !MatchStart(s, q)) && MaximalRunAt(s, p, name)
  }

  /** Length of the run of ASCII letters that starts at `p` (the greedy `+`). */
  function LetterRun(s: string, p: nat): (n: nat)
    requires p <= |s|
    ensures p + n <= |s|
    ensures forall i :: p <= i < p + n ==> IsAsciiLetter(s[i])
    ensures p + n == |s| || !IsAsciiLetter(s[p + n])
    decreases |s| - p
  {
    if p < |s| && IsAsciiLetter(s[p]) then 1 + LetterRun(s, p + 1) else 0
  }

  /** The scan of `re.search`: the first position at or after `from` where a match starts. */
  function FindStart(s: string, from: nat): (r: Option<nat>)
    requires from <= |s|
    ensures r.Some? ==> from <= r.value && MatchStart(s, r.value)
    ensures r.Some? ==> forall q :: from <= q < r.value ==> !MatchStart(s, q)
    ensures r.None? ==> forall q :: from <= q ==> !MatchStart(s, q)
    decreases |s| - from
  {
    if from == |s| then None
    else if MatchStart(s, from) then Some(from)
    else FindStart(s, from + 1)
  }

  /** `re.search('(?<=Script: )[a-zA-Z]+', s)`, with `.group(0)` of the match. */
  function ExtractScript(s: string): (r: Option<string>)
    ensures r.None? <==> forall p :: !MatchStart(s, p)
    ensures r.Some? ==> exists p :: ExtractedAt(s, p, r.value)
  {
    match FindStart(s, 0)
    case None => None
    case Some(p) =>
      var n := LetterRun(s, p);
      assert ExtractedAt(s, p, s[p..p + n]);
      Some(s[p..p + n])
  }

  /** The leftmost start is unique, and so is the greedy run from it. */
  lemma ExtractedAtUnique(s: string, p: int, name: string, p': int, name': string)
    requires ExtractedAt(s, p, name) && ExtractedAt(s, p', name')
    ensures p == p' && name == name'
  {
    MaximalRunUnique(s, p, name, name');
  }

  /** Two greedy runs from the same position are the same run. */
  lemma MaximalRunUnique(s: string, p: int, name: string, name': string)
    requires MaximalRunAt(s, p, name) && MaximalRunAt(s, p, name')
    ensures name == name'
  {
    if |name| < |name'| {
      RunLetter(s, p, name', |name|);
      assert false;
    } else if |name'| < |name| {
      RunLetter(s, p, name, |name'|);
      assert false;
    }
  }

  lemma RunLetter(s: string, p: int, name: string, i: int)
    requires MaximalRunAt(s, p, name) && 0 <= i < |name|
    ensures p + i < |s| && IsAsciiLetter(s[p + i])
  {
    assert s[p + i] == name[i];
  }

  /** The extraction returns exactly the name the regular-expression semantics determines. */
  lemma ExtractScriptIff(s: string, name: string)
    ensures ExtractScript(s) == Some(name) <==> exists p :: ExtractedAt(s, p, name)
  {
    if p :| ExtractedAt(s, p, name) {
      assert ExtractScript(s).Some?;
      var p' :| ExtractedAt(s, p', ExtractScript(s).value);
      ExtractedAtUnique(s, p, name, p', ExtractScript(s).value);
    }
  }

  /** A successful result is a non-empty run of letters directly preceded by the label. */
  lemma ExtractScriptShape(s: string)
    requires ExtractScript(s).Some?
    ensures |ExtractScript(s).value| >= 1 && AllLetters(ExtractScript(s).value)
    ensures exists p :: MarkerAt(s, p - |Marker|) && MaximalRunAt(s, p, ExtractScript(s).value)
  {
    var p :| ExtractedAt(s, p, ExtractScript(s).value);
  }

  /** Text without the label never matches, so the script raises. */
  lemma NoMarkerFails(s: string)
    requires forall i :: !MarkerAt(s, i)
    ensures ExtractScript(s) == None
  {
    forall p
      ensures !MatchStart(s, p)
    {
      assert !MarkerAt(s, p - |Marker|);
    }
  }

  /**
   * When no match starts before the label in `pre + Marker + name + post`, the
   * letters `name` follow it and `post` does not continue them, the result is
   * `name`. Labels later in the text do not matter.
   */
  lemma FirstMatchingLabel(pre: string, name: string, post: string)
    requires |name| >= 1 && AllLetters(name)
    requires post == [] || !IsAsciiLetter(post[0])
    requires forall q :: 0 <= q < |pre| + |Marker| ==> !MatchStart(pre + Marker + name + post, q)
    ensures ExtractScript(pre + Marker + name + post) == Some(name)
  {
    var s := pre + Marker + name + post;
    var p := |pre| + |Marker|;
    assert s[|pre|..p] == Marker;
    assert MarkerAt(s, |pre|);
    assert s[p..p + |name|] == name;
    assert post != [] ==> s[p + |name|] == post[0];
    assert MatchStart(s, p) by {
      assert s[p] == name[0];
    }
    assert ExtractedAt(s, p, name);
    ExtractScriptIff(s, name);
  }

  /** When the only label in the text is followed by the letters `name` and then a line break, the result is `name`. */
  lemma SoleMarker(pre: string, name: string, post: string)
    requires |name| >= 1 && AllLetters(name)
    requires forall i :: MarkerAt(pre + Marker + name + "\n" + post, i) ==> i == |pre|
    ensures ExtractScript(pre + Marker + name + "\n" + post) == Some(name)
  {
    var s := pre + Marker + name + "\n" + post;
    assert s == pre + Marker + name + ("\n" + post);
    forall q | 0 <= q < |pre| + |Marker|
      ensures !MatchStart(s, q)
    {
      if |Marker| <= q {
        assert q - |Marker| != |pre|;
      }
    }
    FirstMatchingLabel(pre, name, "\n" + post);
  }

  /** OSD output in which "Script: Arabic\n" holds the first label followed by a letter yields "Arabic". */
  lemma ArabicExample(pre: string, post: string)
    requires forall q :: 0 <= q < |pre| + |Marker| ==> !MatchStart(pre + "Script: Arabic\n" + post, q)
    ensures ExtractScript(pre + "Script: Arabic\n" + post) == Some("Arabic")
  {
    assert pre + "Script: Arabic\n" + post == pre + Marker + "Arabic" + ("\n" + post);
    FirstMatchingLabel(pre, "Arabic", "\n" + post);
  }
}
