/**
  Python `str` operations used by the scripts, with CPython's meaning:
  whitespace is the `str.isspace()` set (the same set `str.strip()`,
  `str.split()` and the regular-expression class `\s` use), slicing clamps
  at the ends, `split(sep)` keeps empty fields and `replace` is one
  left-to-right pass over non-overlapping occurrences. Case mapping is ASCII
  only.
 */
module Text {
  import opened Common

  /** Python's `str.isspace()`: the characters with Unicode bidirectional class WS, B or S, or category Zs. */
  predicate IsSpace(c: char)
  {
    c == ' ' || ('\t' <= c <= '\r') || ('\U{1C}' <= c <= '\U{1F}') || c == '\U{85}' || c == '\U{A0}'
    || c == '\U{1680}' || ('\U{2000}' <= c <= '\U{200A}') || c == '\U{2028}' || c == '\U{2029}'
    || c == '\U{202F}' || c == '\U{205F}' || c == '\U{3000}'
  }

  predicate IsDigit(c: char) { '0' <= c <= '9' }
  predicate IsUpper(c: char) { 'A' <= c <= 'Z' }
  predicate IsLower(c: char) { 'a' <= c <= 'z' }
  predicate IsLetter(c: char) { IsUpper(c) || IsLower(c) }
  predicate IsAlnum(c: char) { IsLetter(c) || IsDigit(c) }

  function LowerChar(c: char): char
  {
    if IsUpper(c) then (c as int + 32) as char else c
  }

  function UpperChar(c: char): char
  {
    if IsLower(c) then (c as int - 32) as char else c
  }

  /** `s.lower()` (ASCII letters only). */
  function Lower(s: string): (r: string)
    ensures |r| == |s|
  {
    seq(|s|, i requires 0 <= i < |s| => LowerChar(s[i]))
  }

  /** `s.upper()` (ASCII letters only). */
  function Upper(s: string): (r: string)
    ensures |r| == |s|
  {
    seq(|s|, i requires 0 <= i < |s| => UpperChar(s[i]))
  }

  /** No upper-case letter occurs in `s`. */
  ghost predicate IsLowerCase(s: string)
  {
    forall i :: 0 <= i < |s| ==> !IsUpper(s[i])
  }

  lemma LowerIsLowerCase(s: string)
    ensures IsLowerCase(Lower(s))
  {
  }

  lemma LowerSlice(s: string, i: nat, j: nat)
    requires i <= j <= |s|
    ensures Lower(s[i..j]) == Lower(s)[i..j]
  {
  }

  lemma UpperSlice(s: string, i: nat, j: nat)
    requires i <= j <= |s|
    ensures Upper(s[i..j]) == Upper(s)[i..j]
  {
  }

  /** Two strings that agree up to ASCII case also agree after `upper()`. */
  lemma UpperOfLowerEqual(a: string, b: string)
    requires Lower(a) == Lower(b)
    ensures Upper(a) == Upper(b)
  {
    assert |a| == |b|;
    forall i | 0 <= i < |a|
      ensures Upper(a)[i] == Upper(b)[i]
    {
      assert Lower(a)[i] == Lower(b)[i];
    }
  }

  lemma LowerOfUpperEqual(a: string, b: string)
    requires Upper(a) == Upper(b)
    ensures Lower(a) == Lower(b)
  {
    assert |a| == |b|;
    forall i | 0 <= i < |a|
      ensures Lower(a)[i] == Lower(b)[i]
    {
      assert Upper(a)[i] == Upper(b)[i];
    }
  }

  /** `w` occurs in `s` at position `i`. */
  predicate At(s: string, i: int, w: string)
  {
    0 <= i && i + |w| <= |s| && s[i..i + |w|] == w
  }

  /** `w in s`. */
  predicate Contains(s: string, w: string)
  {
    exists i :: 0 <= i <= |s| - |w| && At(s, i, w)
  }

  /** A word with a character that `s` lacks does not occur in `s`. */
  lemma MissingCharNotContained(s: string, w: string, k: nat)
    requires k < |w| && w[k] !in s
    ensures !Contains(s, w)
  {
    forall i | 0 <= i <= |s| - |w|
      ensures !At(s, i, w)
    {
      assert i + k < |s|;
      assert s[i + k] in s;
    }
  }

  /** A word absent from `s` is absent from its tail. */
  lemma NotContainedTail(s: string, w: string)
    requires s != [] && !Contains(s, w)
    ensures !Contains(s[1..], w)
  {
    forall i | 0 <= i <= |s[1..]| - |w|
      ensures !At(s[1..], i, w)
    {
      assert s[1..][i..i + |w|] == s[i + 1..i + 1 + |w|];
      assert !At(s, i + 1, w);
    }
  }

  /** `s.startswith(p)`. */
  predicate StartsWith(s: string, p: string)
  {
    |p| <= |s| && s[..|p|] == p
  }

  /** `s[:n]`. */
  function Take<T>(s: seq<T>, n: nat): (r: seq<T>)
    ensures |r| <= n && |r| <= |s|
    ensures |s| <= n ==> r == s
    ensures n <= |s| ==> r == s[..n]
  {
    if |s| <= n then s else s[..n]
  }

  /** `s[n:]`. */
  function Drop<T>(s: seq<T>, n: nat): (r: seq<T>)
    ensures |s| <= n ==> r == []
    ensures n <= |s| ==> r == s[n..]
  {
    if |s| <= n then [] else s[n..]
  }

  /** Number of leading whitespace characters, which `lstrip()` removes. */
  function LeadSpaces(s: string): (n: nat)
    ensures n <= |s|
  {
    if s != [] && IsSpace(s[0]) then 1 + LeadSpaces(s[1..]) else 0
  }

  /** The leading whitespace run ends at the first non-whitespace character. */
  lemma {:induction false} LeadSpacesRun(s: string)
    ensures forall i :: 0 <= i < LeadSpaces(s) ==> IsSpace(s[i])
    ensures LeadSpaces(s) < |s| ==> !IsSpace(s[LeadSpaces(s)])
  {
    if s != [] && IsSpace(s[0]) {
      LeadSpacesRun(s[1..]);
      forall i | 0 <= i < LeadSpaces(s)
        ensures IsSpace(s[i])
      {
        if i > 0 {
          assert s[i] == s[1..][i - 1];
        }
      }
    }
  }

  /** A string of whitespace only is all leading whitespace. */
  lemma {:induction false} LeadSpacesAll(s: string)
    requires forall i :: 0 <= i < |s| ==> IsSpace(s[i])
    ensures LeadSpaces(s) == |s|
  {
    if s != [] {
      assert forall i :: 0 <= i < |s[1..]| ==> s[1..][i] == s[i + 1];
      LeadSpacesAll(s[1..]);
    }
  }

  /** Number of trailing whitespace characters, which `rstrip()` removes. */
  function TrailSpaces(s: string): (n: nat)
    ensures n <= |s|
  {
    if s != [] && IsSpace(s[|s| - 1]) then 1 + TrailSpaces(s[..|s| - 1]) else 0
  }

  /** The trailing whitespace run starts after the last non-whitespace character. */
  lemma {:induction false} TrailSpacesRun(s: string)
    ensures forall i :: |s| - TrailSpaces(s) <= i < |s| ==> IsSpace(s[i])
    ensures TrailSpaces(s) < |s| ==> !IsSpace(s[|s| - TrailSpaces(s) - 1])
  {
    if s != [] && IsSpace(s[|s| - 1]) {
      var init := s[..|s| - 1];
      TrailSpacesRun(init);
      forall i | |s| - TrailSpaces(s) <= i < |s|
        ensures IsSpace(s[i])
      {
        if i < |s| - 1 {
          assert s[i] == init[i];
        }
      }
    }
  }

  /** `s.lstrip()`. */
  function LStrip(s: string): string
  {
    s[LeadSpaces(s)..]
  }

  /** `s.rstrip()`. */
  function RStrip(s: string): string
  {
    s[..|s| - TrailSpaces(s)]
  }

  /** `s.strip()`. */
  function Strip(s: string): string
  {
    RStrip(LStrip(s))
  }

  /** `s.rstrip()` drops a run of whitespace from the end and ends with a non-whitespace character. */
  lemma RStripShape(s: string)
    ensures RStrip(s) == s[..|s| - TrailSpaces(s)]
    ensures RStrip(s) != [] ==> !IsSpace(RStrip(s)[|RStrip(s)| - 1])
    ensures forall i :: |RStrip(s)| <= i < |s| ==> IsSpace(s[i])
  {
    TrailSpacesRun(s);
    var r := RStrip(s);
    if r != [] {
      assert r[|r| - 1] == s[|s| - TrailSpaces(s) - 1];
    }
  }

  /**
    `s.strip()` is the slice of `s` between its leading and its trailing
    whitespace, all of which is whitespace, and it neither starts nor ends
    with whitespace.
   */
  lemma StripShape(s: string)
    ensures LeadSpaces(s) + |Strip(s)| <= |s|
    ensures Strip(s) == s[LeadSpaces(s)..LeadSpaces(s) + |Strip(s)|]
    ensures Strip(s) != [] ==> !IsSpace(Strip(s)[0]) && !IsSpace(Strip(s)[|Strip(s)| - 1])
    ensures forall i :: 0 <= i < LeadSpaces(s) ==> IsSpace(s[i])
    ensures forall i :: LeadSpaces(s) + |Strip(s)| <= i < |s| ==> IsSpace(s[i])
  {
    var a := LeadSpaces(s);
    var l := LStrip(s);
    var r := Strip(s);
    LeadSpacesRun(s);
    RStripShape(l);
    assert r == s[a..][..|r|];
    assert r == s[a..a + |r|];
    forall i | a + |r| <= i < |s|
      ensures IsSpace(s[i])
    {
      assert s[i] == l[i - a];
    }
    if r != [] {
      assert r[0] == s[a];
    }
  }

  /** Every character of a whitespace-only string is removed by `strip()`. */
  lemma StripAllSpace(s: string)
    requires forall i :: 0 <= i < |s| ==> IsSpace(s[i])
    ensures Strip(s) == []
  {
    LeadSpacesAll(s);
  }

  /** `strip()` changes nothing on a string that neither starts nor ends with whitespace. */
  lemma StripNoOp(s: string)
    requires s != [] ==> !IsSpace(s[0]) && !IsSpace(s[|s| - 1])
    ensures Strip(s) == s
  {
    assert LStrip(s) == s;
  }

  /** `s.strip().strip() == s.strip()`. */
  lemma StripIdempotent(s: string)
    ensures Strip(Strip(s)) == Strip(s)
  {
    StripShape(s);
    StripNoOp(Strip(s));
  }

  /** An occurrence inside `s.strip()` is an occurrence inside `s`, shifted by the leading whitespace. */
  lemma StripOccurrenceLifts(s: string, w: string, i: int)
    requires At(Strip(s), i, w)
    ensures At(s, LeadSpaces(s) + i, w)
  {
    var r := Strip(s);
    var a := LeadSpaces(s);
    StripShape(s);
    assert s[a + i..a + i + |w|] == r[i..i + |w|];
  }

  /** An occurrence in `s` of a word without whitespace lies wholly inside `s.strip()`. */
  lemma StripOccurrenceLowers(s: string, w: string, i: int)
    requires w != []
    requires forall k :: 0 <= k < |w| ==> !IsSpace(w[k])
    requires At(s, i, w)
    ensures LeadSpaces(s) <= i && At(Strip(s), i - LeadSpaces(s), w)
  {
    var r := Strip(s);
    var a := LeadSpaces(s);
    var e := i + |w| - 1;
    StripShape(s);
    assert s[i..i + |w|][0] == s[i] && s[i..i + |w|][|w| - 1] == s[e];
    assert !IsSpace(s[i]) && !IsSpace(s[e]);
    assert a <= i;
    assert e < a + |r|;
    forall j | 0 <= j < |w|
      ensures r[i - a + j] == w[j]
    {
      assert r[i - a + j] == s[i + j];
      assert s[i + j] == s[i..i + |w|][j];
    }
    assert r[i - a..i - a + |w|] == w;
  }

  /**
    Stripping cannot lose an occurrence of a word that has no whitespace in it:
    `w in s.strip()` is the same as `w in s`.
   */
  lemma StripKeepsWords(s: string, w: string)
    requires w != []
    requires forall k :: 0 <= k < |w| ==> !IsSpace(w[k])
    ensures Contains(Strip(s), w) <==> Contains(s, w)
  {
    if Contains(Strip(s), w) {
      var i :| 0 <= i <= |Strip(s)| - |w| && At(Strip(s), i, w);
      StripOccurrenceLifts(s, w, i);
    }
    if Contains(s, w) {
      var i :| 0 <= i <= |s| - |w| && At(s, i, w);
      StripOccurrenceLowers(s, w, i);
    }
  }

  /** `strip()` keeps a non-empty prefix that has no whitespace in it. */
  lemma StripKeepsPrefix(s: string, n: nat)
    requires 0 < n <= |s| && forall i :: 0 <= i < n ==> !IsSpace(s[i])
    ensures n <= |Strip(s)| && Strip(s)[..n] == s[..n]
  {
    StripShape(s);
    assert LeadSpaces(s) == 0;
    assert !IsSpace(s[n - 1]);
  }

  /** `s.split(sep)` for a one-character separator: empty fields are kept, and `"".split(sep) == [""]`. */
  function Split(s: string, sep: char): (r: seq<string>)
    ensures |r| >= 1
    ensures forall k :: 0 <= k < |r| ==> sep !in r[k]
    decreases |s|
  {
    if s == [] then [""]
    else
      var rest := Split(s[1..], sep);
      if s[0] == sep then [""] + rest else [[s[0]] + rest[0]] + rest[1..]
  }

  /** A string without the separator splits into itself alone. */
  lemma {:induction false} SplitNoSep(s: string, sep: char)
    requires sep !in s
    ensures Split(s, sep) == [s]
    decreases |s|
  {
    if s != [] {
      assert sep !in s[1..] by {
        forall c | c in s[1..]
          ensures c != sep
        {
          var k :| 0 <= k < |s[1..]| && s[1..][k] == c;
          assert s[k + 1] == c;
        }
      }
      SplitNoSep(s[1..], sep);
      assert [s[0]] + s[1..] == s;
    }
  }

  /** `sep.join(parts)`. */
  function Join(parts: seq<string>, sep: string): string
  {
    if parts == [] then ""
    else if |parts| == 1 then parts[0]
    else parts[0] + sep + Join(parts[1..], sep)
  }

  /** `[k.strip() for k in fields if k.strip()]`. */
  function CleanFields(fields: seq<string>): seq<string>
  {
    if fields == [] then []
    else CleanFields(fields[..|fields| - 1]) + (if Strip(fields[|fields| - 1]) != "" then [Strip(fields[|fields| - 1])] else [])
  }

  /** A cleaned field is a non-empty stripped field of the input, free of outer whitespace. */
  lemma {:induction false} CleanFieldsFrom(fields: seq<string>, k: string)
    requires k in CleanFields(fields)
    ensures k != "" && Strip(k) == k
    ensures exists i :: 0 <= i < |fields| && Strip(fields[i]) == k
    decreases |fields|
  {
    var init := fields[..|fields| - 1];
    var last := Strip(fields[|fields| - 1]);
    if k in CleanFields(init) {
      CleanFieldsFrom(init, k);
      var i :| 0 <= i < |init| && Strip(init[i]) == k;
      assert fields[i] == init[i];
    } else {
      assert k == last;
      StripIdempotent(fields[|fields| - 1]);
    }
  }

  /** Every non-empty stripped field of the input is kept. */
  lemma {:induction false} CleanFieldsTo(fields: seq<string>, i: nat)
    requires i < |fields| && Strip(fields[i]) != ""
    ensures Strip(fields[i]) in CleanFields(fields)
    decreases |fields|
  {
    var init := fields[..|fields| - 1];
    var last := Strip(fields[|fields| - 1]);
    var tail := if last != "" then [last] else [];
    assert CleanFields(fields) == CleanFields(init) + tail;
    if i < |init| {
      assert init[i] == fields[i];
      CleanFieldsTo(init, i);
    } else {
      assert last in tail;
    }
  }

  /**
    The cleaned fields are exactly the fields that are not blank once
    stripped, stripped.
   */
  lemma CleanFieldsMembers(fields: seq<string>, k: string)
    ensures k in CleanFields(fields) <==> k != "" && exists i :: 0 <= i < |fields| && Strip(fields[i]) == k
  {
    if k in CleanFields(fields) {
      CleanFieldsFrom(fields, k);
    }
    if k != "" && exists i :: 0 <= i < |fields| && Strip(fields[i]) == k {
      var i :| 0 <= i < |fields| && Strip(fields[i]) == k;
      CleanFieldsTo(fields, i);
    }
  }

  /** Length of the longest prefix of `s` that holds no whitespace. */
  function WordLen(s: string): (n: nat)
    ensures n <= |s|
  {
    if s == [] || IsSpace(s[0]) then 0 else 1 + WordLen(s[1..])
  }

  /** The prefix `WordLen` measures is free of whitespace and is followed by whitespace or the end. */
  lemma {:induction false} WordLenRun(s: string)
    ensures forall i :: 0 <= i < WordLen(s) ==> !IsSpace(s[i])
    ensures WordLen(s) < |s| ==> IsSpace(s[WordLen(s)])
  {
    if s != [] && !IsSpace(s[0]) {
      WordLenRun(s[1..]);
      forall i | 0 <= i < WordLen(s)
        ensures !IsSpace(s[i])
      {
        if i > 0 {
          assert s[i] == s[1..][i - 1];
        }
      }
    }
  }

  /** A non-empty run of non-whitespace characters. */
  predicate IsWord(w: string)
  {
    w != [] && forall i :: 0 <= i < |w| ==> !IsSpace(w[i])
  }

  /** `s.split()` with no argument: the maximal runs of non-whitespace characters. */
  function Words(s: string): seq<string>
    decreases |s|
  {
    if s == [] then []
    else if IsSpace(s[0]) then Words(s[1..])
    else
      var n := WordLen(s);
      [s[..n]] + Words(s[n..])
  }

  /** Every field of `s.split()` is a word: non-empty and free of whitespace. */
  lemma {:induction false} WordsAreWords(s: string)
    ensures forall k :: 0 <= k < |Words(s)| ==> IsWord(Words(s)[k])
    decreases |s|
  {
    if s != [] {
      if IsSpace(s[0]) {
        WordsAreWords(s[1..]);
      } else {
        var n := WordLen(s);
        WordLenRun(s);
        WordsAreWords(s[n..]);
        var ws := Words(s);
        assert ws == [s[..n]] + Words(s[n..]);
        forall k | 0 <= k < |ws|
          ensures IsWord(ws[k])
        {
          if k > 0 {
            assert ws[k] == Words(s[n..])[k - 1];
          }
        }
      }
    }
  }

  /** An upper-case letter in a word of `s.split()` is an upper-case letter of `s`. */
  lemma {:induction false} WordsOfLowerCase(s: string)
    requires IsLowerCase(s)
    ensures forall k :: 0 <= k < |Words(s)| ==> IsLowerCase(Words(s)[k])
    decreases |s|
  {
    if s != [] {
      if IsSpace(s[0]) {
        assert IsLowerCase(s[1..]) by {
          forall i | 0 <= i < |s| - 1
            ensures !IsUpper(s[1..][i])
          {
            assert s[1..][i] == s[i + 1];
          }
        }
        WordsOfLowerCase(s[1..]);
      } else {
        var n := WordLen(s);
        var rest := s[n..];
        assert IsLowerCase(rest) by {
          forall i | 0 <= i < |rest|
            ensures !IsUpper(rest[i])
          {
            assert rest[i] == s[n + i];
          }
        }
        WordsOfLowerCase(rest);
        var ws := Words(s);
        assert ws == [s[..n]] + Words(rest);
        forall k | 0 <= k < |ws|
          ensures IsLowerCase(ws[k])
        {
          if k == 0 {
            forall i | 0 <= i < n
              ensures !IsUpper(ws[0][i])
            {
              assert ws[0][i] == s[i];
            }
          } else {
            assert ws[k] == Words(rest)[k - 1];
          }
        }
      }
    }
  }

  lemma SplitOfLowerCase(s: string, sep: char)
    requires IsLowerCase(s)
    ensures forall k :: 0 <= k < |Split(s, sep)| ==> IsLowerCase(Split(s, sep)[k])
    decreases |s|
  {
    if s != [] {
      SplitOfLowerCase(s[1..], sep);
    }
  }

  lemma StripOfLowerCase(s: string)
    requires IsLowerCase(s)
    ensures IsLowerCase(Strip(s))
  {
    StripShape(s);
  }

  /** `s.replace(old, new)`: one left-to-right pass over non-overlapping occurrences of `old`. */
  function Replace(s: string, pat: string, repl: string): string
    requires pat != []
    decreases |s|
  {
    if |s| < |pat| then s
    else if s[..|pat|] == pat then repl + Replace(s[|pat|..], pat, repl)
    else [s[0]] + Replace(s[1..], pat, repl)
  }

  /** Replacing a single character by a different one leaves none of it behind. */
  lemma ReplaceCharRemoves(s: string, c: char, repl: string)
    requires c !in repl
    ensures c !in Replace(s, [c], repl)
    decreases |s|
  {
    if |s| >= 1 {
      ReplaceCharRemoves(s[1..], c, repl);
    }
  }

  /** Replacing a character keeps out any character that neither `s` nor `new` has. */
  lemma ReplaceCharKeepsOut(s: string, c: char, repl: string, d: char)
    requires d !in s && d !in repl
    ensures d !in Replace(s, [c], repl)
    decreases |s|
  {
    if |s| >= 1 {
      ReplaceCharKeepsOut(s[1..], c, repl, d);
    }
  }

  /** Index of the first `c` at or after `from`, or `|s|` when there is none. */
  function IndexOfCharFrom(s: string, c: char, from: nat): (r: nat)
    requires from <= |s|
    ensures from <= r <= |s|
    ensures r < |s| ==> s[r] == c
    ensures forall i :: from <= i < r ==> s[i] != c
    decreases |s| - from
  {
    if from == |s| || s[from] == c then from else IndexOfCharFrom(s, c, from + 1)
  }

  /** The first field of `s.split(c)`: the text before the first `c`. */
  lemma SplitFirst(s: string, c: char)
    ensures Split(s, c)[0] == s[..IndexOfCharFrom(s, c, 0)]
    decreases |s|
  {
    if s != [] && s[0] != c {
      SplitFirst(s[1..], c);
      IndexShift(s, c, 0);
    }
  }

  lemma IndexShift(s: string, c: char, from: nat)
    requires from < |s| && s[from] != c
    ensures IndexOfCharFrom(s, c, from) == 1 + IndexOfCharFrom(s[1..], c, from)
    decreases |s| - from
  {
    if from + 1 < |s| && s[from + 1] != c {
      IndexShift(s, c, from + 1);
    }
  }

  /** Length of the run of whitespace that starts at `p`. */
  function SpaceRun(s: string, p: nat): (n: nat)
    requires p <= |s|
    ensures p + n <= |s|
    ensures forall i :: p <= i < p + n ==> IsSpace(s[i])
    ensures p + n < |s| ==> !IsSpace(s[p + n])
    decreases |s| - p
  {
    if p < |s| && IsSpace(s[p]) then 1 + SpaceRun(s, p + 1) else 0
  }

  /** Length of the run of characters satisfying `P` that starts at `p`: a greedy `[...]*` of a regular expression. */
  function CharRun(s: string, p: nat, P: char -> bool): (n: nat)
    requires p <= |s|
    ensures p + n <= |s|
    ensures forall i :: p <= i < p + n ==> P(s[i])
    ensures p + n < |s| ==> !P(s[p + n])
    decreases |s| - p
  {
    if p < |s| && P(s[p]) then 1 + CharRun(s, p + 1, P) else 0
  }

  /** `re.sub(r'\s+', ' ', s)`: every maximal run of whitespace becomes one space. */
  function CollapseSpaces(s: string): (r: string)
    ensures '\n' !in r
    ensures |r| <= |s|
    decreases |s|
  {
    if s == [] then []
    else if IsSpace(s[0]) then
      var n := SpaceRun(s, 0);
      " " + CollapseSpaces(s[n..])
    else [s[0]] + CollapseSpaces(s[1..])
  }

  /** A collapsed string keeps its first character when that is not whitespace. */
  lemma CollapsePrefix(s: string, n: nat)
    requires n <= |s|
    requires forall i :: 0 <= i < n ==> !IsSpace(s[i])
    ensures n <= |CollapseSpaces(s)| && CollapseSpaces(s)[..n] == s[..n]
    decreases n
  {
    if n > 0 {
      CollapsePrefix(s[1..], n - 1);
    }
  }

  /** ASCII lower-casing maps whitespace to whitespace and non-whitespace to non-whitespace. */
  lemma LowerCharSpace(c: char)
    ensures IsSpace(LowerChar(c)) == IsSpace(c)
  {
  }

  lemma {:induction false} LowerLeadSpaces(s: string)
    ensures LeadSpaces(Lower(s)) == LeadSpaces(s)
    decreases |s|
  {
    if s != [] {
      LowerCharSpace(s[0]);
      assert Lower(s)[1..] == Lower(s[1..]);
      LowerLeadSpaces(s[1..]);
    }
  }

  lemma {:induction false} LowerTrailSpaces(s: string)
    ensures TrailSpaces(Lower(s)) == TrailSpaces(s)
    decreases |s|
  {
    if s != [] {
      LowerCharSpace(s[|s| - 1]);
      assert Lower(s)[..|s| - 1] == Lower(s[..|s| - 1]);
      LowerTrailSpaces(s[..|s| - 1]);
    }
  }

  lemma LowerLStrip(s: string)
    ensures Lower(LStrip(s)) == LStrip(Lower(s))
  {
    LowerLeadSpaces(s);
    LowerSlice(s, LeadSpaces(s), |s|);
  }

  lemma LowerRStrip(s: string)
    ensures Lower(RStrip(s)) == RStrip(Lower(s))
  {
    LowerTrailSpaces(s);
    LowerSlice(s, 0, |s| - TrailSpaces(s));
  }

  /** `s.strip().lower() == s.lower().strip()`. */
  lemma LowerStrip(s: string)
    ensures Lower(Strip(s)) == Strip(Lower(s))
  {
    LowerLStrip(s);
    LowerRStrip(LStrip(s));
  }

  /** The last position in `[lo, hi)` that does not hold a line break. */
  function LastNonBreak(s: string, lo: nat, hi: nat): (r: Option<nat>)
    requires lo <= hi <= |s|
    ensures r.Some? ==> lo <= r.value < hi && s[r.value] != '\n'
    ensures r.Some? ==> forall k :: r.value < k < hi ==> s[k] == '\n'
    ensures r.None? ==> forall k :: lo <= k < hi ==> s[k] == '\n'
    decreases hi - lo
  {
    if lo == hi then None
    else if s[hi - 1] != '\n' then Some(hi - 1)
    else LastNonBreak(s, lo, hi - 1)
  }
}
