/**
  Regular-expression matchers and keyword-set construction that several of
  the allocation scripts share: `re.findall(r'[a-z]+', s)`, the paper
  keyword set built from the keywords field and the abstract, the search
  `re.search(r'SCORE:\s*(\d+)', s, re.IGNORECASE)` over a model reply, and
  the keyword-hit count the heuristic classifiers use.
 */
module Patterns {
  import opened Common
  import opened Text

  // ---------------------------------------------------------------------------
  // re.findall(r'[a-z]+', s)
  // ---------------------------------------------------------------------------

  /** Length of the run of ASCII lower-case letters that starts `s`. */
  function LowerRunLen(s: string): (n: nat)
    ensures n <= |s|
    ensures forall i :: 0 <= i < n ==> IsLower(s[i])
    ensures n < |s| ==> !IsLower(s[n])
  {
    if s == [] || !IsLower(s[0]) then 0 else 1 + LowerRunLen(s[1..])
  }

  /** `re.findall(r'[a-z]+', s)`: the maximal runs of ASCII lower-case letters, left to right. */
  function AlphaRuns(s: string): (r: seq<string>)
    ensures forall k :: 0 <= k < |r| ==> r[k] != [] && forall i :: 0 <= i < |r[k]| ==> IsLower(r[k][i])
    decreases |s|
  {
    if s == [] then []
    else if !IsLower(s[0]) then AlphaRuns(s[1..])
    else
      var n := LowerRunLen(s);
      [s[..n]] + AlphaRuns(s[n..])
  }

  /** A run of lower-case letters has no upper-case letter. */
  lemma AlphaRunsLowerCase(s: string)
    ensures forall k :: 0 <= k < |AlphaRuns(s)| ==> IsLowerCase(AlphaRuns(s)[k])
  {
    var r := AlphaRuns(s);
    forall k | 0 <= k < |r|
      ensures IsLowerCase(r[k])
    {
      forall i | 0 <= i < |r[k]|
        ensures !IsUpper(r[k][i])
      {
        assert IsLower(r[k][i]);
      }
    }
  }

  // ---------------------------------------------------------------------------
  // Paper keyword sets (`Paper._extract_keywords`)
  // ---------------------------------------------------------------------------

  /** The words of `ws` longer than `n` characters that are not in `stop`. */
  function LongOnes(ws: seq<string>, n: nat, stop: set<string>): set<string>
  {
    if ws == [] then {}
    else
      var last := ws[|ws| - 1];
      LongOnes(ws[..|ws| - 1], n, stop) + (if |last| > n && last !in stop then {last} else {})
  }

  /** `LongOnes` keeps exactly the long non-stop words of `ws`. */
  lemma {:induction false} LongOnesMembers(ws: seq<string>, n: nat, stop: set<string>, w: string)
    ensures w in LongOnes(ws, n, stop) <==> w in ws && |w| > n && w !in stop
    decreases |ws|
  {
    if ws != [] {
      var last := ws[|ws| - 1];
      assert ws == ws[..|ws| - 1] + [last];
      LongOnesMembers(ws[..|ws| - 1], n, stop, w);
    }
  }

  /** What one keyword phrase contributes: the phrase when longer than two characters, with its words longer than three. */
  function PhraseContribution(kw: string): set<string>
  {
    if |kw| > 2 then {kw} + LongOnes(Words(kw), 3, {}) else {}
  }

  /** Terms contributed by comma-separated fields, in order: each field is stripped first. */
  function PhraseTerms(parts: seq<string>): set<string>
  {
    if parts == [] then {} else PhraseTerms(parts[..|parts| - 1]) + PhraseContribution(Strip(parts[|parts| - 1]))
  }

  lemma PhraseTermsSnoc(parts: seq<string>, i: nat)
    requires i < |parts|
    ensures PhraseTerms(parts[..i + 1]) == PhraseTerms(parts[..i]) + PhraseContribution(Strip(parts[i]))
  {
    assert parts[..i + 1][..i] == parts[..i];
  }

  /** `w` is what the field `p` contributes: the stripped field when longer than two characters, or one of its words longer than three. */
  predicate IsPhraseTerm(p: string, w: string)
  {
    |Strip(p)| > 2 && (w == Strip(p) || (w in Words(Strip(p)) && |w| > 3))
  }

  lemma ContributionMember(p: string, w: string)
    ensures w in PhraseContribution(Strip(p)) <==> IsPhraseTerm(p, w)
  {
    LongOnesMembers(Words(Strip(p)), 3, {}, w);
  }

  /** Every phrase term comes from one of the fields. */
  lemma {:induction false} PhraseTermsFrom(parts: seq<string>, w: string)
    requires w in PhraseTerms(parts)
    ensures exists i :: 0 <= i < |parts| && IsPhraseTerm(parts[i], w)
    decreases |parts|
  {
    var init := parts[..|parts| - 1];
    var last := parts[|parts| - 1];
    if w in PhraseTerms(init) {
      PhraseTermsFrom(init, w);
      var i :| 0 <= i < |init| && IsPhraseTerm(init[i], w);
      assert init[i] == parts[i];
    } else {
      ContributionMember(last, w);
      assert IsPhraseTerm(parts[|parts| - 1], w);
    }
  }

  /** Terms contributed by the abstract: its letter runs longer than four characters that are not stopwords. */
  function AbstractTerms(abstractText: string, stopwords: set<string>): set<string>
  {
    if abstractText == "" then {} else LongOnes(AlphaRuns(Lower(abstractText)), 4, stopwords)
  }

  /** The keyword set of a paper, from its keywords field and its abstract. */
  function KeywordSet(keywords: string, abstractText: string, stopwords: set<string>): set<string>
  {
    (if keywords == "" then {} else PhraseTerms(Split(Lower(keywords), ','))) + AbstractTerms(abstractText, stopwords)
  }

  /** Terms drawn from lower-case fields are lower-case and longer than two characters. */
  lemma PhraseTermsLowerCase(parts: seq<string>, w: string)
    requires forall k :: 0 <= k < |parts| ==> IsLowerCase(parts[k])
    requires w in PhraseTerms(parts)
    ensures IsLowerCase(w) && |w| > 2
  {
    PhraseTermsFrom(parts, w);
    var i :| 0 <= i < |parts| && IsPhraseTerm(parts[i], w);
    var kw := Strip(parts[i]);
    StripOfLowerCase(parts[i]);
    if w != kw {
      WordsOfLowerCase(kw);
      var k :| 0 <= k < |Words(kw)| && Words(kw)[k] == w;
    }
  }

  /** Abstract terms are lower-case letter runs longer than four characters and not stopwords. */
  lemma AbstractTermsFacts(abstractText: string, stopwords: set<string>, w: string)
    requires w in AbstractTerms(abstractText, stopwords)
    ensures w in AlphaRuns(Lower(abstractText)) && |w| > 4 && w !in stopwords && IsLowerCase(w)
  {
    var runs := AlphaRuns(Lower(abstractText));
    LongOnesMembers(runs, 4, stopwords, w);
    AlphaRunsLowerCase(Lower(abstractText));
    var k :| 0 <= k < |runs| && runs[k] == w;
  }

  /**
    The keyword set holds only lower-case terms longer than two characters:
    each a stripped keyword phrase or one of its words longer than three, or
    a letter run of the abstract longer than four that is not a stopword.
   */
  lemma KeywordSetTerms(keywords: string, abstractText: string, stopwords: set<string>, w: string)
    requires w in KeywordSet(keywords, abstractText, stopwords)
    ensures IsLowerCase(w) && |w| > 2
    ensures w in PhraseTerms(Split(Lower(keywords), ',')) || (w in AlphaRuns(Lower(abstractText)) && |w| > 4 && w !in stopwords)
  {
    var parts := Split(Lower(keywords), ',');
    if keywords != "" && w in PhraseTerms(parts) {
      LowerIsLowerCase(keywords);
      SplitOfLowerCase(Lower(keywords), ',');
      PhraseTermsLowerCase(parts, w);
    } else {
      AbstractTermsFacts(abstractText, stopwords, w);
    }
  }

  /** The loop `for w in ws: if len(w) > n and w not in stop: words.add(w)`. */
  method AddLongOnes(words0: set<string>, ws: seq<string>, n: nat, stop: set<string>) returns (words: set<string>)
    ensures words == words0 + LongOnes(ws, n, stop)
  {
    words := words0;
    var j := 0;
    while j < |ws|
      invariant j <= |ws|
      invariant words == words0 + LongOnes(ws[..j], n, stop)
    {
      assert ws[..j + 1][..j] == ws[..j];
      if |ws[j]| > n && ws[j] !in stop {
        words := words + {ws[j]};
      }
      j := j + 1;
    }
    assert ws[..j] == ws;
  }

  /** The loop over the keyword phrases: each phrase longer than two characters, and its words longer than three. */
  method AddPhraseTerms(keywords: string) returns (words: set<string>)
    ensures words == PhraseTerms(Split(Lower(keywords), ','))
  {
    words := {};
    var parts := Split(Lower(keywords), ',');
    var i := 0;
    while i < |parts|
      invariant i <= |parts|
      invariant words == PhraseTerms(parts[..i])
    {
      words := AddPhrase(words, parts[i]);
      PhraseTermsSnoc(parts, i);
      i := i + 1;
    }
    assert parts[..i] == parts;
  }

  /** One step of the phrase loop: `kw = kw.strip()`, then the phrase and its long words when it is longer than two characters. */
  method AddPhrase(words0: set<string>, part: string) returns (words: set<string>)
    ensures words == words0 + PhraseContribution(Strip(part))
  {
    words := words0;
    var kw := Strip(part);
    if |kw| > 2 {
      words := AddLongOnes(words + {kw}, Words(kw), 3, {});
    }
  }

  /** `Paper._extract_keywords`: the phrases of the keywords field, then the abstract's letter runs. */
  method ExtractKeywordSet(keywords: string, abstractText: string, stopwords: set<string>) returns (words: set<string>)
    ensures words == KeywordSet(keywords, abstractText, stopwords)
  {
    words := {};
    if keywords != "" {
      words := AddPhraseTerms(keywords);
    }
    if abstractText != "" {
      words := AddLongOnes(words, AlphaRuns(Lower(abstractText)), 4, stopwords);
    }
  }

  // ---------------------------------------------------------------------------
  // re.search(r'SCORE:\s*(\d+)', s, re.IGNORECASE)
  // ---------------------------------------------------------------------------

  /** Length of the run of ASCII digits that starts at `p`. */
  function DigitRun(s: string, p: nat): (n: nat)
    requires p <= |s|
    ensures p + n <= |s|
    ensures forall i :: p <= i < p + n ==> IsDigit(s[i])
    ensures p + n < |s| ==> !IsDigit(s[p + n])
    decreases |s| - p
  {
    if p < |s| && IsDigit(s[p]) then 1 + DigitRun(s, p + 1) else 0
  }

  /** `int(d)` for a string of ASCII digits. */
  function DecimalValue(d: string): nat
    requires forall i :: 0 <= i < |d| ==> IsDigit(d[i])
  {
    if d == [] then 0
    else
      var c := d[|d| - 1];
      assert IsDigit(c);
      10 * DecimalValue(d[..|d| - 1]) + (c as int - '0' as int)
  }

  /** "SCORE:" in any ASCII case starts at `i`. */
  predicate MarkerAt(s: string, i: int)
  {
    0 <= i && i + 6 <= |s| && Lower(s[i..i + 6]) == "score:"
  }

  /** Where the digits of a match at `i` start: after the marker and its whitespace. */
  function DigitsStart(s: string, i: nat): (j: nat)
    requires i + 6 <= |s|
    ensures i + 6 <= j <= |s|
  {
    i + 6 + SpaceRun(s, i + 6)
  }

  /** The pattern matches at `i`: the marker, then whitespace, then at least one digit. */
  predicate ScoreAt(s: string, i: int)
  {
    MarkerAt(s, i) && DigitsStart(s, i) < |s| && IsDigit(s[DigitsStart(s, i)])
  }

  /** Leftmost match at or after `from`, or `|s|` when there is none. */
  function FindScore(s: string, from: nat): (i: nat)
    requires from <= |s|
    ensures from <= i <= |s|
    ensures i < |s| ==> ScoreAt(s, i)
    ensures forall k :: from <= k < i ==> !ScoreAt(s, k)
    decreases |s| - from
  {
    if from == |s| || ScoreAt(s, from) then from else FindScore(s, from + 1)
  }

  /** The number a match at `i` captures: `int(m.group(1))`, the whole digit run after the marker. */
  function ScoreValue(s: string, i: nat): nat
    requires ScoreAt(s, i)
  {
    var j := DigitsStart(s, i);
    DecimalValue(s[j..j + DigitRun(s, j)])
  }

  /** The captured number of the leftmost match, if there is one. */
  function SearchScore(s: string): (r: Option<nat>)
    ensures r.None? <==> forall k :: 0 <= k < |s| ==> !ScoreAt(s, k)
  {
    var i := FindScore(s, 0);
    if i == |s| then None else Some(ScoreValue(s, i))
  }

  /** The leftmost match's number is the whole digit run after the marker. */
  lemma SearchScoreOf(s: string, i: nat)
    requires ScoreAt(s, i) && forall k :: 0 <= k < i ==> !ScoreAt(s, k)
    ensures SearchScore(s) == Some(ScoreValue(s, i))
  {
    FindScoreAt(s, 0, i);
  }

  /** The scan from `from` stops at the first match. */
  lemma {:induction false} FindScoreAt(s: string, from: nat, i: nat)
    requires from <= i && ScoreAt(s, i) && forall k :: from <= k < i ==> !ScoreAt(s, k)
    ensures FindScore(s, from) == i
    decreases i - from
  {
    if from < i {
      assert !ScoreAt(s, from);
      FindScoreAt(s, from + 1, i);
    }
  }

  /** A match implies the marker test `'SCORE:' in s.upper()` passes. */
  lemma MatchHasMarker(s: string, i: nat)
    requires MarkerAt(s, i)
    ensures Contains(Upper(s), "SCORE:")
  {
    UpperOfLowerEqual(s[i..i + 6], "score:");
    UpperSlice(s, i, i + 6);
    assert At(Upper(s), i, "SCORE:");
  }

  /** Without the marker there is no match. */
  lemma NoMarkerNoMatch(s: string)
    requires !Contains(Upper(s), "SCORE:")
    ensures SearchScore(s).None?
  {
    forall k | 0 <= k < |s| && MarkerAt(s, k)
      ensures false
    {
      MatchHasMarker(s, k);
    }
  }

  // ---------------------------------------------------------------------------
  // Keyword-hit counting for the heuristic classifiers
  // ---------------------------------------------------------------------------

  /** `sum(1 for w in words if w in text)`. */
  function CountHits(words: seq<string>, text: string): (n: nat)
    ensures n <= |words|
  {
    if words == [] then 0 else (if Contains(text, words[0]) then 1 else 0) + CountHits(words[1..], text)
  }

  /** No hit is counted when no listed word occurs in the text, and one is when some word does. */
  lemma {:induction false} CountHitsPositive(words: seq<string>, text: string)
    ensures CountHits(words, text) > 0 <==> exists i :: 0 <= i < |words| && Contains(text, words[i])
  {
    if words != [] {
      CountHitsPositive(words[1..], text);
      if exists i :: 0 <= i < |words| && Contains(text, words[i]) {
        var i :| 0 <= i < |words| && Contains(text, words[i]);
        if i > 0 {
          assert words[1..][i - 1] == words[i];
        }
      }
      if exists i :: 0 <= i < |words[1..]| && Contains(text, words[1..][i]) {
        var i :| 0 <= i < |words[1..]| && Contains(text, words[1..][i]);
        assert words[i + 1] == words[1..][i];
      }
    }
  }
}
