/**
  Paper intake: the anonymous title derived from a submission's file name,
  and the catalogue tags derived from the text of its first pages.

  The three file-name patterns are regular expressions ending in `(.+)$`.
  They are modelled as leftmost scans with the engine's backing off made
  explicit: a greedy run of separator characters is given back one
  character at a time until the rest of the line can form the group.
 */
module ProcessPapers {
  import opened Common
  import opened Text

  /** A character of `[-–—]`. */
  predicate IsDash(c: char) { c == '-' || c == '\U{2013}' || c == '\U{2014}' }

  predicate IsDotOrSpace(c: char) { c == '.' || IsSpace(c) }

  predicate IsCommaOrSpace(c: char) { c == ',' || IsSpace(c) }

  predicate IsDashOrSpace(c: char) { IsDash(c) || IsSpace(c) }

  /** `n` decimal digits start at `i`. */
  predicate DigitsAt(s: string, i: nat, n: nat)
  {
    i + n <= |s| && forall k :: i <= k < i + n ==> IsDigit(s[k])
  }

  /**
    `(.+)$` matches from `j`: the text up to the next line break is not empty,
    and that line break, if any, is the last character (where `$` also matches).
   */
  predicate LineToEnd(s: string, j: nat)
  {
    j < |s| && var q := IndexOfCharFrom(s, '\n', j); j < q && (q == |s| || q == |s| - 1)
  }

  /** The group `(.+)` of a match whose group starts at `j`. */
  function GroupFrom(s: string, j: nat): string
    requires j <= |s|
  {
    s[j..IndexOfCharFrom(s, '\n', j)]
  }

  /** The largest start in `[lo, hi]` from which `(.+)$` matches: the greedy run before it, given back as far as needed. */
  function Backoff(s: string, lo: nat, hi: nat): (r: Option<nat>)
    requires lo <= hi
    ensures r.Some? ==> lo <= r.value <= hi && LineToEnd(s, r.value)
    ensures r.Some? ==> forall j :: r.value < j <= hi ==> !LineToEnd(s, j)
    ensures r.None? ==> forall j :: lo <= j <= hi ==> !LineToEnd(s, j)
    decreases hi - lo
  {
    if LineToEnd(s, hi) then Some(hi)
    else if hi == lo then None
    else Backoff(s, lo, hi - 1)
  }

  /** Group start of `\(\d{4}\)[.\s]*(.+)$` matched at `i`. */
  function ParenYearAt(s: string, i: nat): Option<nat>
  {
    if i + 6 <= |s| && s[i] == '(' && DigitsAt(s, i + 1, 4) && s[i + 5] == ')' then
      Backoff(s, i + 6, i + 6 + CharRun(s, i + 6, IsDotOrSpace))
    else None
  }

  /** Group start of `\d{4}[,\s]+(.+)$` matched at `i`. */
  function YearCommaAt(s: string, i: nat): Option<nat>
  {
    if DigitsAt(s, i, 4) then
      var run := CharRun(s, i + 4, IsCommaOrSpace);
      if run == 0 then None else Backoff(s, i + 5, i + 4 + run)
    else None
  }

  /** Group start of `\d{4}\s*[-–—]\s*(.+)$` matched at `i`. */
  function YearDashAt(s: string, i: nat): Option<nat>
  {
    if DigitsAt(s, i, 4) then
      var k := i + 4 + SpaceRun(s, i + 4);
      if k < |s| && IsDash(s[k]) then Backoff(s, k + 1, k + 1 + SpaceRun(s, k + 1)) else None
    else None
  }

  /** Start of the leftmost match of `m` at or after `from`; `|s| + 1` when there is none. */
  function Leftmost(s: string, from: nat, m: (string, nat) -> Option<nat>): (i: nat)
    requires from <= |s| + 1
    ensures from <= i <= |s| + 1
    ensures i <= |s| ==> m(s, i).Some?
    ensures forall k :: from <= k < i ==> m(s, k).None?
    decreases |s| + 1 - from
  {
    if from == |s| + 1 || m(s, from).Some? then from else Leftmost(s, from + 1, m)
  }

  /** Group start of `re.search` with the pattern `m`. */
  function Search(s: string, m: (string, nat) -> Option<nat>): Option<nat>
  {
    var i := Leftmost(s, 0, m);
    if i == |s| + 1 then None else m(s, i)
  }

  /** The stem: `filename.replace('.pdf', '').replace('.PDF', '')`. */
  function Stem(filename: string): string
  {
    Replace(Replace(filename, ".pdf", ""), ".PDF", "")
  }

  /**
    `re.sub(r'[-–—]\s*$', '', title)` on the stripped title it is applied to:
    there the only match is a dash as the very last character.
   */
  function DropFinalDash(t: string): string
  {
    if t != "" && IsDash(t[|t| - 1]) then t[..|t| - 1] else t
  }

  /** `t[:100] if len(t) > 100 else t`. */
  function Cut(t: string): (r: string)
    ensures |r| <= 100
  {
    Take(t, 100)
  }

  /** The fallback: the first 80 characters with any leading dashes and whitespace removed. */
  function FallbackTitle(name: string): string
  {
    var t := Take(name, 80);
    t[CharRun(t, 0, IsDashOrSpace)..]
  }

  /** `extract_anonymous_title(filename)`. */
  function AnonymousTitle(filename: string): string
  {
    TitleOfStem(Stem(filename))
  }

  /** The title found in a file name whose extension has been removed. */
  function TitleOfStem(name: string): string
  {
    match Search(name, ParenYearAt)
    case Some(j) => Cut(Strip(DropFinalDash(Strip(GroupFrom(name, j)))))
    case None =>
      match Search(name, YearCommaAt)
      case Some(j) => Cut(Strip(GroupFrom(name, j)))
      case None =>
        match Search(name, YearDashAt)
        case Some(j) => Cut(Strip(GroupFrom(name, j)))
        case None => FallbackTitle(name)
  }

  // ---------------------------------------------------------------------------
  // Properties of the title

  /**
    Every title is at most 100 characters; a title from the fallback is at
    most 80 and starts with neither a dash nor whitespace.
   */
  lemma TitleBounds(name: string)
    ensures |TitleOfStem(name)| <= 100
    ensures Search(name, ParenYearAt).None? && Search(name, YearCommaAt).None? && Search(name, YearDashAt).None? ==>
      var r := TitleOfStem(name);
      r == FallbackTitle(name) && |r| <= 80 && (r == "" || !IsDashOrSpace(r[0]))
  {
    var t := Take(name, 80);
    var n := CharRun(t, 0, IsDashOrSpace);
    assert FallbackTitle(name) == t[n..];
  }

  /** Replacing a pattern that does not occur changes nothing. */
  lemma {:induction false} ReplaceNone(s: string, pat: string, repl: string)
    requires pat != [] && !Contains(s, pat)
    ensures Replace(s, pat, repl) == s
    decreases |s|
  {
    if |s| >= |pat| {
      assert !At(s, 0, pat);
      NotContainedTail(s, pat);
      ReplaceNone(s[1..], pat, repl);
      assert [s[0]] + s[1..] == s;
    }
  }

  /**
    A stem without ".pdf" gets the extension removed: the pattern can only
    begin at its dot, which occurs nowhere else in it.
   */
  lemma {:induction false} ReplaceSuffix(stem: string, pat: string)
    requires |pat| >= 1 && !Contains(stem, pat)
    requires forall k :: 0 < k < |pat| ==> pat[k] != pat[0]
    ensures Replace(stem + pat, pat, "") == stem
    decreases |stem|
  {
    var s := stem + pat;
    if stem == [] {
      assert s[..|pat|] == pat;
      assert s[|pat|..] == [];
    } else {
      assert s[..|pat|] != pat by {
        if |stem| >= |pat| {
          assert s[..|pat|] == stem[0..|pat|];
          assert !At(stem, 0, pat);
        } else {
          var k := |stem|;
          assert 0 < k < |pat|;
          assert s[..|pat|][k] == pat[0];
          assert pat[k] != pat[0];
        }
      }
      NotContainedTail(stem, pat);
      ReplaceSuffix(stem[1..], pat);
      assert s[1..] == stem[1..] + pat;
      assert [s[0]] + stem[1..] == stem;
    }
  }

  /** The extension is removed: a stem that holds neither ".pdf" nor ".PDF" is recovered from either file name. */
  lemma StemOfPdf(stem: string)
    requires !Contains(stem, ".pdf") && !Contains(stem, ".PDF")
    ensures Stem(stem + ".pdf") == stem
    ensures Stem(stem + ".PDF") == stem
  {
    ReplaceSuffix(stem, ".pdf");
    ReplaceNone(stem, ".PDF", "");
    ReplaceNone(stem + ".PDF", ".pdf", "") by {
      assert !Contains(stem + ".PDF", ".pdf") by {
        forall i | 0 <= i <= |stem + ".PDF"| - 4
          ensures !At(stem + ".PDF", i, ".pdf")
        {
          var s := stem + ".PDF";
          if i + 4 <= |stem| {
            assert s[i..i + 4] == stem[i..i + 4];
            assert !At(stem, i, ".pdf");
          } else {
            var k := i + 3 - |stem|;
            assert 0 <= k < 4;
            assert s[i + 3] == ".PDF"[k];
            assert s[i..i + 4][3] == s[i + 3];
          }
        }
      }
    }
    ReplaceSuffix(stem, ".PDF");
  }

  lemma {:induction false} CharRunExact(s: string, p: nat, n: nat, P: char -> bool)
    requires p + n <= |s|
    requires forall k :: p <= k < p + n ==> P(s[k])
    requires p + n < |s| ==> !P(s[p + n])
    ensures CharRun(s, p, P) == n
    decreases n
  {
    if n > 0 {
      CharRunExact(s, p + 1, n - 1, P);
    }
  }

  lemma IndexOfAbsent(s: string, c: char, from: nat)
    requires from <= |s| && forall k :: from <= k < |s| ==> s[k] != c
    ensures IndexOfCharFrom(s, c, from) == |s|
  {
  }

  /**
    The first pattern's group starts after the dots and whitespace that
    follow a parenthesised year at `i`, when the rest is one line.
   */
  lemma ParenYearMatch(name: string, i: nat, j: nat)
    requires i + 6 <= j < |name|
    requires name[i] == '(' && DigitsAt(name, i + 1, 4) && name[i + 5] == ')'
    requires forall k :: i + 6 <= k < j ==> IsDotOrSpace(name[k])
    requires !IsDotOrSpace(name[j]) && forall k :: j <= k < |name| ==> name[k] != '\n'
    ensures ParenYearAt(name, i) == Some(j)
    ensures GroupFrom(name, j) == name[j..]
  {
    CharRunExact(name, i + 6, j - i - 6, IsDotOrSpace);
    IndexOfAbsent(name, '\n', j);
    assert LineToEnd(name, j);
  }

  /** A trailing part: empty, or whitespace other than line breaks and then one dash. */
  predicate DashTrail(trail: string)
  {
    trail == [] ||
    (IsDash(trail[|trail| - 1]) && forall k :: 0 <= k < |trail| - 1 ==> IsSpace(trail[k]) && trail[k] != '\n')
  }

  /** `strip()` removes whitespace appended to a trimmed text. */
  lemma StripAppendedSpace(title: string, gap: string)
    requires title != [] && !IsSpace(title[0]) && !IsSpace(title[|title| - 1])
    requires forall k :: 0 <= k < |gap| ==> IsSpace(gap[k])
    ensures Strip(title + gap) == title
  {
    var s := title + gap;
    StripShape(s);
    assert LeadSpaces(s) == 0 by {
      LeadSpacesRun(s);
    }
    var r := Strip(s);
    assert r == s[..|title|] == title;
  }

  /** The first pattern's cleanup gives back a trimmed title of at most 100 characters with a dash trail removed. */
  lemma CleanParenGroup(title: string, trail: string)
    requires 0 < |title| <= 100 && DashTrail(trail)
    requires !IsDotOrSpace(title[0]) && !IsSpace(title[|title| - 1]) && !IsDash(title[|title| - 1])
    ensures Cut(Strip(DropFinalDash(Strip(title + trail)))) == title
  {
    var g := title + trail;
    if trail == [] {
      assert g == title;
      StripNoOp(title);
    } else {
      assert g[0] == title[0];
      assert g[|g| - 1] == trail[|trail| - 1];
      StripNoOp(g);
      var gap := trail[..|trail| - 1];
      assert DropFinalDash(g) == title + gap;
      StripAppendedSpace(title, gap);
    }
  }

  /**
    A name of the form "Authors (YYYY). Title" gives the title: the text
    after the leftmost parenthesised year and the dots and whitespace that
    follow it, with a trailing dash and the whitespace before it removed,
    when the authors hold no "(" and the title is a single trimmed line of
    at most 100 characters.
   */
  lemma ParenYearTitle(authors: string, year: string, gap: string, title: string, trail: string)
    requires '(' !in authors
    requires |year| == 4 && DigitsAt(year, 0, 4)
    requires forall k :: 0 <= k < |gap| ==> IsDotOrSpace(gap[k])
    requires 0 < |title| <= 100 && '\n' !in title && DashTrail(trail)
    requires !IsDotOrSpace(title[0]) && !IsSpace(title[|title| - 1]) && !IsDash(title[|title| - 1])
    ensures TitleOfStem(authors + "(" + year + ")" + gap + (title + trail)) == title
  {
    var pre := authors + "(" + year + ")";
    var rest := title + trail;
    var name := pre + gap + rest;
    var i := |authors|;
    var j := |pre| + |gap|;
    assert |pre| == i + 6;
    forall k | 0 <= k < i
      ensures ParenYearAt(name, k).None?
    {
      assert name[k] == authors[k];
    }
    assert DigitsAt(name, i + 1, 4) by {
      forall k | i + 1 <= k < i + 5
        ensures IsDigit(name[k])
      {
        assert name[k] == pre[k] == year[k - i - 1];
      }
    }
    assert name[i] == pre[i] == '(';
    assert name[i + 5] == pre[i + 5] == ')';
    forall k | i + 6 <= k < j
      ensures IsDotOrSpace(name[k])
    {
      assert name[k] == gap[k - i - 6];
    }
    assert name[j..] == rest;
    forall k | j <= k < |name|
      ensures name[k] != '\n'
    {
      assert name[k] == rest[k - j];
      if k - j >= |title| {
        assert rest[k - j] == trail[k - j - |title|];
      } else {
        assert rest[k - j] == title[k - j];
      }
    }
    assert name[j] == title[0];
    ParenYearMatch(name, i, j);
    LeftmostAt(name, 0, i, ParenYearAt);
    CleanParenGroup(title, trail);
  }

  /** The leftmost scan stops at the first position where the pattern matches. */
  lemma {:induction false} LeftmostAt(s: string, from: nat, i: nat, m: (string, nat) -> Option<nat>)
    requires from <= i <= |s| && m(s, i).Some?
    requires forall k :: from <= k < i ==> m(s, k).None?
    ensures Leftmost(s, from, m) == i
    decreases i - from
  {
    if from < i {
      LeftmostAt(s, from + 1, i, m);
    }
  }

  /** Without a "(" the first pattern never matches. */
  lemma NoParenNoMatch(s: string)
    requires '(' !in s
    ensures Search(s, ParenYearAt).None?
  {
    forall k | 0 <= k <= |s|
      ensures ParenYearAt(s, k).None?
    {
      if k + 6 <= |s| {
        assert s[k] in s;
      }
    }
  }

  /** The example of the function's documentation. */
  lemma DocExample(filename: string)
    requires filename == "Benner, M. J., " + "& Tushman, M. L. " + "(2003). " +
      "Exploitation, " + "exploration, " + "and process management" + ".pdf"
    ensures AnonymousTitle(filename) == "Exploitation, " + "exploration, " + "and process management"
  {
    var authors := "Benner, M. J., " + "& Tushman, M. L. ";
    var title := "Exploitation, " + "exploration, " + "and process management";
    var name := authors + "(" + "2003" + ")" + ". " + (title + "");
    DocFileName(filename, authors, title, name);
    DocNameHasNoPdf(authors, title, name);
    StemOfPdf(name);
    DocTitleShape(title);
    DocAuthorsLetters(authors);
    ParenYearTitle(authors, "2003", ". ", title, "");
  }

  lemma DocFileName(filename: string, authors: string, title: string, name: string)
    requires filename == "Benner, M. J., " + "& Tushman, M. L. " + "(2003). " +
      "Exploitation, " + "exploration, " + "and process management" + ".pdf"
    requires authors == "Benner, M. J., " + "& Tushman, M. L. "
    requires title == "Exploitation, " + "exploration, " + "and process management"
    requires name == authors + "(" + "2003" + ")" + ". " + (title + "")
    ensures filename == name + ".pdf"
  {
    assert title + "" == title;
  }

  lemma DocNameHasNoPdf(authors: string, title: string, name: string)
    requires authors == "Benner, M. J., " + "& Tushman, M. L. "
    requires title == "Exploitation, " + "exploration, " + "and process management"
    requires name == authors + "(" + "2003" + ")" + ". " + (title + "")
    ensures !Contains(name, ".pdf") && !Contains(name, ".PDF")
  {
    DocAuthorsLetters(authors);
    DocTitleLetters(title);
    assert 'f' !in name && 'P' !in name;
    MissingCharNotContained(name, ".pdf", 3);
    MissingCharNotContained(name, ".PDF", 1);
  }

  lemma DocAuthorsLetters(authors: string)
    requires authors == "Benner, M. J., " + "& Tushman, M. L. "
    ensures 'f' !in authors && 'P' !in authors && '(' !in authors
  {
  }

  lemma DocTitleLetters(title: string)
    requires title == "Exploitation, " + "exploration, " + "and process management"
    ensures 'f' !in title && 'P' !in title
  {
    var t1, t2, t3 := "Exploitation, ", "exploration, ", "and process management";
    assert 'f' !in t1 && 'P' !in t1;
    assert 'f' !in t2 && 'P' !in t2;
    assert 'f' !in t3 && 'P' !in t3;
  }

  lemma DocTitleShape(title: string)
    requires title == "Exploitation, " + "exploration, " + "and process management"
    ensures 0 < |title| <= 100 && '\n' !in title
    ensures !IsDotOrSpace(title[0]) && !IsSpace(title[|title| - 1]) && !IsDash(title[|title| - 1])
  {
    var t1, t3 := "Exploitation, ", "and process management";
    assert title[0] == t1[0] == 'E';
    assert title[|title| - 1] == t3[|t3| - 1] == 't';
  }

  /** With no four digits directly followed by a comma or whitespace, the second pattern never matches. */
  lemma NoSpacedYear(name: string)
    requires forall i: nat :: DigitsAt(name, i, 4) && i + 4 < |name| ==> !IsCommaOrSpace(name[i + 4])
    ensures Search(name, YearCommaAt).None?
  {
    forall i | 0 <= i <= |name|
      ensures YearCommaAt(name, i).None?
    {
      if DigitsAt(name, i, 4) {
        CharRunExact(name, i + 4, 0, IsCommaOrSpace);
      }
    }
  }

  /**
    Four digits followed by a comma or whitespace and more text on the same
    line are caught by the second pattern, so the third is not reached.
   */
  lemma SpacedYearTakesSecond(name: string, i: nat)
    requires '\n' !in name
    requires DigitsAt(name, i, 4) && i + 5 < |name| && IsCommaOrSpace(name[i + 4])
    ensures Search(name, YearCommaAt).Some?
  {
    var run := CharRun(name, i + 4, IsCommaOrSpace);
    var e := i + 4 + run;
    var j := if e < |name| then e else e - 1;
    assert name[j] in name;
    IndexOfAbsent(name, '\n', j) by {
      forall k | j <= k < |name|
        ensures name[k] != '\n'
      {
        assert name[k] in name;
      }
    }
    assert LineToEnd(name, j);
    assert YearCommaAt(name, i).Some?;
    assert Leftmost(name, 0, YearCommaAt) <= i;
  }

  /**
    A year joined to a dash without whitespace, in a one-line name with no
    "(" and no year followed by a comma or whitespace, is left to the third
    pattern, which then gives the title.
   */
  lemma TightDashTakesThird(name: string, i: nat)
    requires '\n' !in name && '(' !in name
    requires forall k: nat :: DigitsAt(name, k, 4) && k + 4 < |name| ==> !IsCommaOrSpace(name[k + 4])
    requires DigitsAt(name, i, 4) && i + 5 < |name| && IsDash(name[i + 4])
    ensures Search(name, YearDashAt).Some?
    ensures TitleOfStem(name) == Cut(Strip(GroupFrom(name, Search(name, YearDashAt).value)))
  {
    NoParenNoMatch(name);
    NoSpacedYear(name);
    TightDashAt(name, i);
    assert Leftmost(name, 0, YearDashAt) <= i;
  }

  /** On a single line, a year joined to a dash with text after it matches the third pattern. */
  lemma TightDashAt(name: string, i: nat)
    requires '\n' !in name
    requires DigitsAt(name, i, 4) && i + 5 < |name| && IsDash(name[i + 4])
    ensures YearDashAt(name, i).Some?
  {
    CharRunExact(name, i + 4, 0, IsSpace);
    var e := i + 5 + SpaceRun(name, i + 5);
    var j := if e < |name| then e else e - 1;
    assert name[j] in name;
    IndexOfAbsent(name, '\n', j) by {
      forall k | j <= k < |name|
        ensures name[k] != '\n'
      {
        assert name[k] in name;
      }
    }
    assert LineToEnd(name, j);
  }

  /** "2003-Title" reaches the third pattern and gives "Title". */
  lemma TightDashExample(name: string)
    requires name == "2003-Title"
    ensures TitleOfStem(name) == "Title"
  {
    TightDashYears(name);
    TightDashTakesThird(name, 0);
    TightDashAtStart(name);
    LeftmostAt(name, 0, 0, YearDashAt);
    IndexOfAbsent(name, '\n', 5);
    assert GroupFrom(name, 5) == "Title";
    StripNoOp("Title");
  }

  lemma TightDashYears(name: string)
    requires name == "2003-Title"
    ensures DigitsAt(name, 0, 4)
    ensures forall k: nat :: DigitsAt(name, k, 4) && k + 4 < |name| ==> !IsCommaOrSpace(name[k + 4])
  {
    assert DigitsAt(name, 0, 4);
    forall k: nat | DigitsAt(name, k, 4) && k + 4 < |name|
      ensures !IsCommaOrSpace(name[k + 4])
    {
    }
  }

  lemma TightDashAtStart(name: string)
    requires name == "2003-Title"
    ensures YearDashAt(name, 0) == Some(5)
  {
    assert DigitsAt(name, 0, 4);
    CharRunExact(name, 4, 0, IsSpace);
    CharRunExact(name, 5, 0, IsSpace);
    IndexOfAbsent(name, '\n', 5);
    assert LineToEnd(name, 5);
  }

  /** "2003 - Title" is caught by the second pattern, which keeps the dash: the title is "- Title". */
  lemma SpacedDashExample(name: string)
    requires name == "2003 - Title"
    ensures TitleOfStem(name) == "- Title"
  {
    NoParenNoMatch(name);
    assert DigitsAt(name, 0, 4);
    CharRunExact(name, 4, 1, IsCommaOrSpace);
    IndexOfAbsent(name, '\n', 5);
    assert LineToEnd(name, 5);
    assert YearCommaAt(name, 0) == Some(5);
    LeftmostAt(name, 0, 0, YearCommaAt);
    assert GroupFrom(name, 5) == "- Title";
    StripNoOp("- Title");
  }

  // ---------------------------------------------------------------------------
  // Catalogue tags

  const TheoryKeywords: seq<string> := [
    "resource-based view", "dynamic capabilities", "institutional theory",
    "transaction cost", "agency theory", "stakeholder theory", "contingency theory",
    "organizational learning", "knowledge-based view", "upper echelons",
    "behavioral theory", "network theory", "evolutionary theory", "population ecology",
    "structural inertia", "absorptive capacity", "ambidexterity", "exploration",
    "exploitation", "core competence", "competitive advantage"
  ]

  const MethodKeywords: seq<string> := [
    "regression", "panel data", "fixed effects", "random effects", "OLS",
    "instrumental variable", "difference-in-difference", "event study",
    "case study", "qualitative", "quantitative", "survey", "interview",
    "longitudinal", "cross-sectional", "meta-analysis", "experiment",
    "simulation", "grounded theory", "content analysis", "archival"
  ]

  const TopicKeywords: seq<string> := [
    "innovation", "M&A", "merger", "acquisition", "alliance", "strategy",
    "performance", "technology", "digital", "platform", "ecosystem",
    "diversification", "internationalization", "entrepreneurship", "startup",
    "governance", "leadership", "CEO", "board", "sustainability", "ESG",
    "disruption", "transformation", "change", "adaptation"
  ]

  /** The four fields of the tag dictionary. */
  datatype Tags = Tags(keywords: string, theory: string, methods: string, topics: string)

  /** The searched text: each non-empty page lower-cased and followed by a space. */
  function PageText(pages: seq<string>): string
  {
    if pages == [] then ""
    else PageText(pages[..|pages| - 1]) + (if pages[|pages| - 1] != "" then Lower(pages[|pages| - 1]) + " " else "")
  }

  /** Group bounds of `keywords?[:\s]+([^\n]+)`, ignoring case, matched at `i`. */
  function KeywordsAt(s: string, i: nat): (r: Option<(nat, nat)>)
    ensures r.Some? ==> i + 7 < r.value.0 < r.value.1 <= |s|
  {
    if i + 7 <= |s| && Lower(s[i..i + 7]) == "keyword" then
      var p := if i + 7 < |s| && LowerChar(s[i + 7]) == 's' then i + 8 else i + 7;
      var run := CharRun(s, p, c => c == ':' || IsSpace(c));
      var e := p + run;
      if run == 0 then None
      else if e < |s| then Some((e, IndexOfCharFrom(s, '\n', e)))
      else
        match LastNonBreak(s, p + 1, e)
        case Some(k) => Some((k, k + 1))
        case None => None
    else None
  }

  /** Start of the leftmost keywords match at or after `from`; `|s|` when there is none. */
  function FindKeywords(s: string, from: nat): (i: nat)
    requires from <= |s|
    ensures from <= i <= |s|
    ensures i < |s| ==> KeywordsAt(s, i).Some?
    decreases |s| - from
  {
    if from == |s| || KeywordsAt(s, from).Some? then from else FindKeywords(s, from + 1)
  }

  /** The explicit keywords: `kw_match.group(1).strip()[:200]`, or "" without a match. */
  function KeywordsField(text: string): (r: string)
    ensures |r| <= 200
  {
    var i := FindKeywords(text, 0);
    if i == |text| then ""
    else
      var g := KeywordsAt(text, i).value;
      Take(Strip(text[g.0..g.1]), 200)
  }

  /** The catalogue entries whose lower-cased form occurs in `text`, in catalogue order. */
  function Found(catalogue: seq<string>, text: string): seq<string>
  {
    if catalogue == [] then []
    else
      var kw := catalogue[|catalogue| - 1];
      Found(catalogue[..|catalogue| - 1], text) + (if Contains(text, Lower(kw)) then [kw] else [])
  }

  /** `'; '.join(found[:3])`. */
  function Listed(found: seq<string>): string
  {
    Join(Take(found, 3), "; ")
  }

  /** The tag dictionary for the given pages. */
  function CatalogueOf(pages: seq<string>): Tags
  {
    var text := PageText(Take(pages, 3));
    Tags(KeywordsField(text), Listed(Found(TheoryKeywords, text)),
         Listed(Found(MethodKeywords, text)), Listed(Found(TopicKeywords, text)))
  }

  /** One catalogue loop: appends each entry found in the text. */
  method FindInCatalogue(catalogue: seq<string>, text: string) returns (found: seq<string>)
    ensures found == Found(catalogue, text)
  {
    found := [];
    var i := 0;
    while i < |catalogue|
      invariant 0 <= i <= |catalogue|
      invariant found == Found(catalogue[..i], text)
    {
      assert catalogue[..i + 1][..i] == catalogue[..i];
      if Contains(text, Lower(catalogue[i])) {
        found := found + [catalogue[i]];
      }
      i := i + 1;
    }
    assert catalogue[..i] == catalogue;
  }

  /** The catalogue part of `extract_keywords_from_pdf`: builds the text page by page, then fills the tags. */
  method ExtractCatalogue(pages: seq<string>) returns (result: Tags)
    ensures result == CatalogueOf(pages)
  {
    var first := Take(pages, 3);
    var text := "";
    var i := 0;
    while i < |first|
      invariant 0 <= i <= |first|
      invariant text == PageText(first[..i])
    {
      assert first[..i + 1][..i] == first[..i];
      if first[i] != "" {
        text := text + Lower(first[i]) + " ";
      }
      i := i + 1;
    }
    assert first[..i] == first;
    var theories := FindInCatalogue(TheoryKeywords, text);
    var methods := FindInCatalogue(MethodKeywords, text);
    var topics := FindInCatalogue(TopicKeywords, text);
    result := Tags(KeywordsField(text), Listed(theories), Listed(methods), Listed(topics));
  }

  // ---------------------------------------------------------------------------
  // Properties of the tags

  /** An entry is found exactly when it is in the catalogue and its lower-cased form occurs in the text. */
  lemma {:induction false} FoundMembers(catalogue: seq<string>, text: string, kw: string)
    ensures kw in Found(catalogue, text) <==> kw in catalogue && Contains(text, Lower(kw))
  {
    if catalogue != [] {
      var front := catalogue[..|catalogue| - 1];
      FoundMembers(front, text, kw);
      assert catalogue == front + [catalogue[|catalogue| - 1]];
    }
  }

  /** Searching a catalogue in two parts finds the first part's entries first: the order is the catalogue's. */
  lemma {:induction false} FoundAppend(a: seq<string>, b: seq<string>, text: string)
    ensures Found(a + b, text) == Found(a, text) + Found(b, text)
    decreases |b|
  {
    if b != [] {
      var n := |b| - 1;
      assert (a + b)[..|a + b| - 1] == a + b[..n];
      assert (a + b)[|a + b| - 1] == b[n];
      FoundAppend(a, b[..n], text);
      var last := if Contains(text, Lower(b[n])) then [b[n]] else [];
      assert Found(a + b, text) == Found(a + b[..n], text) + last;
      assert Found(b, text) == Found(b[..n], text) + last;
    } else {
      assert a + b == a;
    }
  }

  /**
    Each tag field lists at most three entries, each one in its catalogue
    and occurring in the text, and they are the first found ones.
   */
  lemma ListedFacts(catalogue: seq<string>, text: string)
    ensures |Take(Found(catalogue, text), 3)| <= 3
    ensures forall e :: e in Take(Found(catalogue, text), 3) ==> e in catalogue && Contains(text, Lower(e))
    ensures Take(Found(catalogue, text), 3) == Found(catalogue, text)[..|Take(Found(catalogue, text), 3)|]
  {
    var f := Found(catalogue, text);
    forall e | e in Take(f, 3)
      ensures e in catalogue && Contains(text, Lower(e))
    {
      FoundMembers(catalogue, text, e);
    }
  }

  /** The tags: the explicit keywords are at most 200 characters and each list draws on its own catalogue. */
  lemma CatalogueFacts(pages: seq<string>)
    ensures |CatalogueOf(pages).keywords| <= 200
    ensures var text := PageText(Take(pages, 3));
      forall e :: e in Take(Found(MethodKeywords, text), 3) ==> e in MethodKeywords && Contains(text, Lower(e))
  {
    ListedFacts(MethodKeywords, PageText(Take(pages, 3)));
  }
}
