/**
  The keyword repair script: it re-reads each paper, asks a local language
  model for "method, keyword1, ...", and digs the actual answer out of a
  reply that may also contain reasoning. The reply parser tries three
  patterns in turn; the validity test accepts a keyword string only when it
  starts with one of the four research-method words.

  The two regular expressions are modelled as leftmost scans. Greedy
  matching never has to back off in them: the separator characters
  (comma, whitespace) are never alphanumeric, and no method word is a
  prefix of another, so at each start position at most one way to match
  exists and the scan finds it.
 */
module FixKeywords {
  import opened Common
  import opened Text

  /** The four research-method words, in the order the alternation tries them. */
  const MethodWords: seq<string> := ["qualitative", "quantitative", "mixed", "conceptual"]

  /** `s.lower()` starts with one of the four method words. */
  predicate MethodPrefixed(s: string)
  {
    var l := Lower(s);
    StartsWith(l, "qualitative") || StartsWith(l, "quantitative") || StartsWith(l, "mixed") || StartsWith(l, "conceptual")
  }

  /** A character of `[,\s]`. */
  predicate IsSeparator(c: char) { c == ',' || IsSpace(c) }

  /** A character of `[a-zA-Z0-9\s,\-_]`. */
  predicate IsTail(c: char) { IsAlnum(c) || IsSpace(c) || c == ',' || c == '-' || c == '_' }

  /** The lower-case word `w` occurs at `i`, ignoring ASCII case. */
  predicate WordAt(s: string, i: nat, w: string)
  {
    i + |w| <= |s| && Lower(s[i..i + |w|]) == w
  }

  /** The alternative of `(qualitative|quantitative|mixed|conceptual)` that matches at `i`, if any. */
  function MethodWordAt(s: string, i: nat): (w: Option<string>)
    ensures w.Some? ==> w.value in MethodWords && WordAt(s, i, w.value)
  {
    if WordAt(s, i, "qualitative") then Some("qualitative")
    else if WordAt(s, i, "quantitative") then Some("quantitative")
    else if WordAt(s, i, "mixed") then Some("mixed")
    else if WordAt(s, i, "conceptual") then Some("conceptual")
    else None
  }

  /**
    End of the match of the first pattern
    `(qualitative|...|conceptual)[,\s]+[a-zA-Z0-9][a-zA-Z0-9\s,\-_]+` that
    starts at `i`, or `None` when none starts there.
   */
  function Pattern1End(s: string, i: nat): (r: Option<nat>)
    requires i <= |s|
    ensures r.Some? ==> i < r.value <= |s|
  {
    match MethodWordAt(s, i)
    case None => None
    case Some(w) =>
      var sep := CharRun(s, i + |w|, IsSeparator);
      var j := i + |w| + sep;
      if sep == 0 || j == |s| || !IsAlnum(s[j]) then None
      else
        var tail := CharRun(s, j + 1, IsTail);
        if tail == 0 then None else Some(j + 1 + tail)
  }

  /** Start of the leftmost match of the first pattern at or after `from`; `|s|` when there is none. */
  function FindPattern1(s: string, from: nat): (i: nat)
    requires from <= |s|
    ensures from <= i <= |s|
    ensures i < |s| ==> Pattern1End(s, i).Some?
    ensures forall k :: from <= k < i ==> Pattern1End(s, k).None?
    decreases |s| - from
  {
    if from == |s| || Pattern1End(s, from).Some? then from else FindPattern1(s, from + 1)
  }

  /** `match.group(0)` of `re.search` with the first pattern. */
  function Pattern1(s: string): Option<string>
  {
    var i := FindPattern1(s, 0);
    if i == |s| then None else Some(s[i..Pattern1End(s, i).value])
  }

  /** The cleanup of a first-pattern match: strip, collapse whitespace runs to one space, keep the first line. */
  function Clean1(g: string): string
  {
    Split(CollapseSpaces(Strip(g)), '\n')[0]
  }

  /** Length of the label `Keywords:` or `Answer:` (any ASCII case) at `i`; 0 when neither is there. */
  function LabelAt(s: string, i: nat): (n: nat)
    ensures n == 0 || n == 7 || n == 9
    ensures n > 0 ==> i + n <= |s|
  {
    if WordAt(s, i, "keywords:") then 9 else if WordAt(s, i, "answer:") then 7 else 0
  }

  /**
    Bounds of group 2 of the second pattern
    `(Keywords|Answer):\s*([a-zA-Z][a-zA-Z0-9_,\s\-]+)` matched at `i`.
   */
  function Pattern2Span(s: string, i: nat): (r: Option<(nat, nat)>)
    requires i <= |s|
    ensures r.Some? ==> i < r.value.0 < r.value.1 <= |s|
  {
    var n := LabelAt(s, i);
    if n == 0 then None
    else
      var j := i + n + SpaceRun(s, i + n);
      if j == |s| || !IsLetter(s[j]) then None
      else
        var tail := CharRun(s, j + 1, IsTail);
        if tail == 0 then None else Some((j, j + 1 + tail))
  }

  /** Start of the leftmost match of the second pattern at or after `from`; `|s|` when there is none. */
  function FindPattern2(s: string, from: nat): (i: nat)
    requires from <= |s|
    ensures from <= i <= |s|
    ensures i < |s| ==> Pattern2Span(s, i).Some?
    ensures forall k :: from <= k < i ==> Pattern2Span(s, k).None?
    decreases |s| - from
  {
    if from == |s| || Pattern2Span(s, from).Some? then from else FindPattern2(s, from + 1)
  }

  /** `match.group(2)` of `re.search` with the second pattern. */
  function Pattern2(s: string): Option<string>
  {
    var i := FindPattern2(s, 0);
    if i == |s| then None
    else
      var span := Pattern2Span(s, i).value;
      Some(s[span.0..span.1])
  }

  /** The cleanup of a second-pattern group: strip, keep the first line, strip again. */
  function Clean2(g: string): string
  {
    Strip(Split(Strip(g), '\n')[0])
  }

  /** A line the third pattern accepts: it has a comma, 50 < length < 250, and starts with a method word. */
  predicate Qualifies(line: string)
  {
    ',' in line && 50 < |line| < 250 && MethodPrefixed(line)
  }

  /** The first qualifying line of `reversed(lines)`, that is the last one of `lines`. */
  function LastQualifying(lines: seq<string>): Option<string>
  {
    if lines == [] then None
    else if Qualifies(lines[|lines| - 1]) then Some(lines[|lines| - 1])
    else LastQualifying(lines[..|lines| - 1])
  }

  /** `parse_keywords_from_llm_output(raw_output)`. */
  function ParseKeywords(raw: string): string
  {
    if raw == "" then ""
    else
      var m1 := Pattern1(raw);
      if m1.Some? && |Clean1(m1.value)| < 250 then Take(Clean1(m1.value), 200)
      else
        var m2 := Pattern2(raw);
        if m2.Some? && MethodPrefixed(Clean2(m2.value)) then Take(Clean2(m2.value), 200)
        else
          match LastQualifying(CleanFields(Split(raw, '\n')))
          case Some(line) => Take(line, 200)
          case None => ""
  }

  /** `is_valid_keywords(keywords)`. */
  predicate IsValidKeywords(keywords: string)
  {
    keywords != "" && Strip(keywords) != "" && MethodPrefixed(keywords)
  }

  /** `needs_fixing(keywords)`: every paper is re-extracted. */
  predicate NeedsFixing(keywords: string) { true }

  // ---------------------------------------------------------------------------
  // Properties

  /** A string that starts with a method word is never blank, so the validity test is exactly the prefix test. */
  lemma ValidIffPrefixed(k: string)
    ensures IsValidKeywords(k) <==> MethodPrefixed(k)
  {
    if MethodPrefixed(k) {
      var l := Lower(k);
      assert |k| >= 5 && l[0] in "qqmc";
      assert !IsSpace(k[0]) by { LowerCharSpace(k[0]); }
      StripKeepsPrefix(k, 1);
    }
  }

  /** Leading whitespace makes a keyword string invalid, as `startswith` is applied before any strip. */
  lemma LeadingSpaceInvalid(k: string)
    requires k != "" && IsSpace(k[0])
    ensures !IsValidKeywords(k)
  {
    LowerCharSpace(k[0]);
    assert !IsLower(Lower(k)[0]);
  }

  /** A match of the method word `w` at the front of `g` survives into any string that agrees with `g` on it. */
  lemma PrefixedBy(r: string, g: string, w: string)
    requires w in MethodWords && |w| <= |r| && |w| <= |g|
    requires r[..|w|] == g[..|w|] && Lower(g[..|w|]) == w
    ensures MethodPrefixed(r)
  {
    LowerSlice(r, 0, |w|);
  }

  /** `keywords[:n]` still starts with its method word when `n` is at least the longest word. */
  lemma MethodPrefixedTake(k: string, n: nat)
    requires MethodPrefixed(k) && n >= 12
    ensures MethodPrefixed(Take(k, n))
  {
    if n < |k| {
      LowerSlice(k, 0, n);
      var l := Lower(k);
      assert Lower(Take(k, n)) == l[..n];
      assert forall m :: |m| <= 12 && StartsWith(l, m) ==> StartsWith(l[..n], m);
    }
  }

  /** A method word matched ignoring case consists of letters, hence of no whitespace. */
  lemma WordNoSpace(s: string, i: nat, w: string)
    requires w in MethodWords && WordAt(s, i, w)
    ensures forall k :: i <= k < i + |w| ==> !IsSpace(s[k])
  {
    forall k | i <= k < i + |w|
      ensures !IsSpace(s[k])
    {
      assert Lower(s[i..i + |w|])[k - i] == LowerChar(s[k]);
      assert IsLower(w[k - i]);
      LowerCharSpace(s[k]);
    }
  }

  /** The cleaned first-pattern match keeps its method word in front and has no line break. */
  lemma Clean1Prefixed(s: string, i: nat)
    requires i <= |s| && Pattern1End(s, i).Some?
    ensures MethodPrefixed(Clean1(s[i..Pattern1End(s, i).value]))
    ensures '\n' !in Clean1(s[i..Pattern1End(s, i).value])
  {
    var w := MethodWordAt(s, i).value;
    var g := s[i..Pattern1End(s, i).value];
    WordNoSpace(s, i, w);
    assert |w| < |g|;
    assert g[..|w|] == s[i..i + |w|];
    forall k | 0 <= k < |w|
      ensures !IsSpace(g[k])
    {
      assert g[k] == s[i + k];
    }
    StripKeepsPrefix(g, |w|);
    var t := Strip(g);
    CollapsePrefix(t, |w|);
    var c := CollapseSpaces(t);
    SplitNoSep(c, '\n');
    PrefixedBy(c, g, w);
  }

  /**
    What the parser returns: at most 200 characters, and either nothing or a
    string that passes the validity test.
   */
  lemma ParseKeywordsValid(raw: string)
    ensures |ParseKeywords(raw)| <= 200
    ensures ParseKeywords(raw) != "" ==> IsValidKeywords(ParseKeywords(raw))
  {
    var r := ParseKeywords(raw);
    if r != "" {
      var m1 := Pattern1(raw);
      var m2 := Pattern2(raw);
      if m1.Some? && |Clean1(m1.value)| < 250 {
        Clean1Prefixed(raw, FindPattern1(raw, 0));
        MethodPrefixedTake(Clean1(m1.value), 200);
      } else if m2.Some? && MethodPrefixed(Clean2(m2.value)) {
        MethodPrefixedTake(Clean2(m2.value), 200);
      } else {
        var line := LastQualifying(CleanFields(Split(raw, '\n')));
        LastQualifyingFacts(CleanFields(Split(raw, '\n')));
        MethodPrefixedTake(line.value, 200);
      }
      ValidIffPrefixed(r);
    }
  }

  /** The empty reply gives the empty string. */
  lemma ParseEmpty()
    ensures ParseKeywords("") == ""
  {
  }

  /**
    The first pattern takes precedence: when its leftmost match starts at `i`
    and cleans to fewer than 250 characters, the parser returns the first
    200 characters of that cleaned match, whatever the other patterns find.
   */
  lemma Pattern1First(raw: string, i: nat, e: nat)
    requires i < |raw| && Pattern1End(raw, i) == Some(e)
    requires forall k :: 0 <= k < i ==> Pattern1End(raw, k).None?
    requires |Clean1(raw[i..e])| < 250
    ensures ParseKeywords(raw) == Take(Clean1(raw[i..e]), 200)
  {
    assert FindPattern1(raw, 0) == i;
  }

  /**
    The third pattern's scan: it yields a qualifying line when one exists,
    namely the last one, and nothing when no line qualifies.
   */
  lemma {:induction false} LastQualifyingFacts(lines: seq<string>)
    ensures LastQualifying(lines).Some? ==>
      exists k :: 0 <= k < |lines| && lines[k] == LastQualifying(lines).value && Qualifies(lines[k]) &&
        forall j :: k < j < |lines| ==> !Qualifies(lines[j])
    ensures LastQualifying(lines).None? <==> forall j :: 0 <= j < |lines| ==> !Qualifies(lines[j])
  {
    if lines != [] {
      var n := |lines| - 1;
      if !Qualifies(lines[n]) {
        var front := lines[..n];
        LastQualifyingFacts(front);
        if LastQualifying(front).Some? {
          var k :| 0 <= k < |front| && front[k] == LastQualifying(front).value && Qualifies(front[k]) &&
            forall j :: k < j < |front| ==> !Qualifies(front[j]);
          assert lines[k] == front[k];
        } else {
          forall j | 0 <= j < |lines|
            ensures !Qualifies(lines[j])
          {
            if j < n { assert lines[j] == front[j]; }
          }
        }
      }
    }
  }

  /**
    A reply that neither pattern matches is answered from its stripped,
    non-blank lines: the last qualifying one, cut to 200 characters, or
    nothing.
   */
  lemma FallbackToLines(raw: string)
    requires raw != "" && Pattern1(raw).None? && Pattern2(raw).None?
    ensures ParseKeywords(raw) == match LastQualifying(CleanFields(Split(raw, '\n')))
      case Some(line) => Take(line, 200)
      case None => ""
    ensures ParseKeywords(raw) == "" <==>
      forall l :: l in CleanFields(Split(raw, '\n')) ==> !Qualifies(l)
  {
    var lines := CleanFields(Split(raw, '\n'));
    LastQualifyingFacts(lines);
    match LastQualifying(lines)
    case Some(line) =>
      assert line in lines;
    case None =>
  }

  /** Every stored keyword string is re-extracted. */
  lemma AlwaysRefixed(k: string)
    ensures NeedsFixing(k)
  {
  }
}
