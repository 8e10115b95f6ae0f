/**
  The keyword cleaner: it rewrites each stored keyword string that still
  carries a language model's reasoning ("Okay, ...") into a short
  comma-separated keyword line, or into the empty string when no such line
  can be found.
 */
module CleanKeywords {
  import opened Common
  import opened Text

  /**
    Bounds of group 1 of `re.search(r'Keywords:\s*([^\n]+)', s)` for a match
    at `i` (the label is case-sensitive). The greedy `\s*` may swallow line
    breaks; when it runs to the end of the text the engine backs off to the
    last whitespace character that is not a line break, which then forms the
    whole group.
   */
  function LabelGroupAt(s: string, i: nat): (r: Option<(nat, nat)>)
    requires i <= |s|
    ensures r.Some? ==> i + 9 <= r.value.0 < r.value.1 <= |s|
  {
    if !At(s, i, "Keywords:") then None
    else
      var j := i + 9 + SpaceRun(s, i + 9);
      if j < |s| then Some((j, IndexOfCharFrom(s, '\n', j)))
      else
        match LastNonBreak(s, i + 9, j)
        case Some(k) => Some((k, k + 1))
        case None => None
  }

  /** Start of the leftmost match of the label search at or after `from`; `|s|` when there is none. */
  function FindLabel(s: string, from: nat): (i: nat)
    requires from <= |s|
    ensures from <= i <= |s|
    ensures i < |s| ==> LabelGroupAt(s, i).Some?
    ensures forall k :: from <= k < i ==> LabelGroupAt(s, k).None?
    decreases |s| - from
  {
    if from == |s| || LabelGroupAt(s, from).Some? then from else FindLabel(s, from + 1)
  }

  /** `match.group(1)` of the label search, when it matches. */
  function LabelGroup(s: string): Option<string>
  {
    var i := FindLabel(s, 0);
    if i == |s| then None
    else
      var g := LabelGroupAt(s, i).value;
      Some(s[g.0..g.1])
  }

  /** A line the fallback scan accepts: it has a comma, is shorter than 300 characters and does not start with "Okay". */
  predicate LooksLikeKeywords(line: string)
  {
    ',' in line && |line| < 300 && !StartsWith(line, "Okay")
  }

  /** The first accepted line of `reversed(lines)`, that is the last one of `lines`. */
  function LastKeywordLine(lines: seq<string>): Option<string>
  {
    if lines == [] then None
    else if LooksLikeKeywords(lines[|lines| - 1]) then Some(lines[|lines| - 1])
    else LastKeywordLine(lines[..|lines| - 1])
  }

  /** The text in reasoning form starts with "Okay," or with the label "Keywords:". */
  predicate InReasoningForm(t: string)
  {
    StartsWith(t, "Okay,") || StartsWith(t, "Keywords:")
  }

  /**
    The text after the reasoning branch: the stripped label group, else the
    stripped last accepted line; `None` when the branch gives up and the
    cleaner returns "". Text not in reasoning form passes unchanged.
   */
  function Extracted(t: string): Option<string>
  {
    if !InReasoningForm(t) then Some(t)
    else
      match LabelGroup(t)
      case Some(g) => Some(Strip(g))
      case None =>
        match LastKeywordLine(Split(t, '\n'))
        case Some(line) => Some(Strip(line))
        case None => None
  }

  /** `re.sub(r'^Keywords:\s*', '', t, flags=re.IGNORECASE)`: the label is removed once, at the very start only. */
  function StripLabel(t: string): string
  {
    if |t| >= 9 && Lower(t[..9]) == "keywords:" then t[9 + SpaceRun(t, 9)..] else t
  }

  /** `t.replace('"', '').replace("'", '')`. */
  function Unquote(t: string): string
  {
    Replace(Replace(t, "\"", ""), "'", "")
  }

  /** The common tail: drop the label, the quotes and all lines but the first; refuse what still looks like reasoning. */
  function Finish(t: string): string
  {
    var u := Strip(Split(Unquote(StripLabel(t)), '\n')[0]);
    if |u| > 250 || StartsWith(u, "Okay") then "" else Take(u, 200)
  }

  /** `clean_keywords(keywords_text)` as a value. */
  function Cleaned(t: string): string
  {
    if t == "" || Strip(t) == "" then ""
    else
      match Extracted(t)
      case Some(u) => Finish(u)
      case None => ""
  }

  /** `clean_keywords(keywords_text)`: rebinds the text step by step, with the backwards `for/else` line scan. */
  method CleanKeywords(keywordsText: string) returns (r: string)
    ensures r == Cleaned(keywordsText)
  {
    var t := keywordsText;
    if t == "" || Strip(t) == "" {
      return "";
    }
    if StartsWith(t, "Okay,") || StartsWith(t, "Keywords:") {
      var m := LabelGroup(t);
      if m.Some? {
        t := Strip(m.value);
      } else {
        var lines := Split(t, '\n');
        var i := |lines|;
        var found := false;
        assert lines[..i] == lines;
        while i > 0 && !found
          invariant 0 <= i <= |lines|
          invariant !found ==> LastKeywordLine(lines) == LastKeywordLine(lines[..i])
          invariant found ==> LastKeywordLine(lines).Some? && t == Strip(LastKeywordLine(lines).value)
          decreases i, if found then 0 else 1
        {
          var line := lines[i - 1];
          assert lines[..i][..i - 1] == lines[..i - 1];
          if ',' in line && |line| < 300 && !StartsWith(line, "Okay") {
            t := Strip(line);
            found := true;
          } else {
            i := i - 1;
          }
        }
        if !found {
          assert lines[..0] == [];
          return "";
        }
      }
    }
    t := StripLabel(t);
    t := Replace(t, "\"", "");
    t := Replace(t, "'", "");
    t := Strip(Split(t, '\n')[0]);
    if |t| > 250 || StartsWith(t, "Okay") {
      return "";
    }
    r := Take(t, 200);
  }

  // ---------------------------------------------------------------------------
  // Properties

  /** The stripped first line of `s` holds no line break and no character that `s` lacks. */
  lemma FirstLineKeepsOut(s: string, c: char)
    requires c !in s
    ensures c !in Strip(Split(s, '\n')[0])
    ensures '\n' !in Strip(Split(s, '\n')[0])
  {
    SplitFirst(s, '\n');
    var f := Split(s, '\n')[0];
    StripShape(f);
    var u := Strip(f);
    forall k | 0 <= k < |u|
      ensures u[k] != c && u[k] != '\n'
    {
      assert u[k] == f[LeadSpaces(f) + k];
      assert f[LeadSpaces(f) + k] in f;
      assert f[LeadSpaces(f) + k] == s[LeadSpaces(f) + k];
      assert s[LeadSpaces(f) + k] in s;
    }
  }

  /** A prefix keeps out what its string keeps out, and cannot start with "Okay" if its string does not. */
  lemma TakeKeepsOut(u: string, n: nat)
    requires n >= 4 && !StartsWith(u, "Okay")
    ensures !StartsWith(Take(u, n), "Okay")
    ensures forall c :: c !in u ==> c !in Take(u, n)
  {
    var r := Take(u, n);
    if |r| >= 4 {
      assert r[..4] == u[..4];
    }
    forall c | c !in u
      ensures c !in r
    {
      forall k | 0 <= k < |r|
        ensures r[k] != c
      {
        assert r[k] == u[k];
      }
    }
  }

  /** The finished text: at most 200 characters, no quotes, no line break, and not starting with "Okay". */
  lemma FinishFacts(t: string)
    ensures |Finish(t)| <= 200
    ensures '"' !in Finish(t) && '\'' !in Finish(t) && '\n' !in Finish(t)
    ensures !StartsWith(Finish(t), "Okay")
  {
    var l := StripLabel(t);
    var q := Replace(l, "\"", "");
    ReplaceCharRemoves(l, '"', "");
    ReplaceCharRemoves(q, '\'', "");
    ReplaceCharKeepsOut(q, '\'', "", '"');
    var v := Unquote(l);
    FirstLineKeepsOut(v, '"');
    FirstLineKeepsOut(v, '\'');
    var u := Strip(Split(v, '\n')[0]);
    if !(|u| > 250 || StartsWith(u, "Okay")) {
      TakeKeepsOut(u, 200);
    }
  }

  /**
    What the cleaner returns on any input: at most 200 characters, no
    double or single quote, no line break, never a text starting with
    "Okay", and "" for empty or whitespace-only input.
   */
  lemma CleanedFacts(t: string)
    ensures |Cleaned(t)| <= 200
    ensures '"' !in Cleaned(t) && '\'' !in Cleaned(t) && '\n' !in Cleaned(t)
    ensures !StartsWith(Cleaned(t), "Okay")
    ensures Strip(t) == "" ==> Cleaned(t) == ""
  {
    if t != "" && Strip(t) != "" && Extracted(t).Some? {
      FinishFacts(Extracted(t).value);
    }
  }

  /** The fallback scan finds a line exactly when some line is accepted, and then it is the last accepted one. */
  lemma {:induction false} LastKeywordLineFacts(lines: seq<string>)
    ensures LastKeywordLine(lines).None? <==> forall j :: 0 <= j < |lines| ==> !LooksLikeKeywords(lines[j])
    ensures LastKeywordLine(lines).Some? ==>
      exists k :: 0 <= k < |lines| && lines[k] == LastKeywordLine(lines).value && LooksLikeKeywords(lines[k]) &&
        forall j :: k < j < |lines| ==> !LooksLikeKeywords(lines[j])
  {
    if lines != [] {
      var n := |lines| - 1;
      if !LooksLikeKeywords(lines[n]) {
        var front := lines[..n];
        LastKeywordLineFacts(front);
        if LastKeywordLine(front).Some? {
          var k :| 0 <= k < |front| && front[k] == LastKeywordLine(front).value && LooksLikeKeywords(front[k]) &&
            forall j :: k < j < |front| ==> !LooksLikeKeywords(front[j]);
          assert lines[k] == front[k];
        } else {
          forall j | 0 <= j < |lines|
            ensures !LooksLikeKeywords(lines[j])
          {
            if j < n { assert lines[j] == front[j]; }
          }
        }
      }
    }
  }

  /** Without the exact label "Keywords:" anywhere, the label search finds nothing. */
  lemma NoLabelNoGroup(t: string)
    requires !Contains(t, "Keywords:")
    ensures LabelGroup(t).None?
  {
  }

  /**
    Reasoning that begins "Okay," and has neither the label "Keywords:" nor
    any accepted line is cleaned to "".
   */
  lemma OkayWithoutAnswer(t: string)
    requires StartsWith(t, "Okay,") && !Contains(t, "Keywords:")
    requires forall line :: line in Split(t, '\n') ==> !LooksLikeKeywords(line)
    ensures Cleaned(t) == ""
  {
    NoLabelNoGroup(t);
    LastKeywordLineFacts(Split(t, '\n'));
  }

  /**
    The label search answers with the rest of the line after the leftmost
    "Keywords:" and its whitespace, when that rest is not blank.
   */
  lemma LabelGroupLine(t: string, i: nat)
    requires At(t, i, "Keywords:")
    requires forall k :: 0 <= k < i ==> !At(t, k, "Keywords:")
    requires i + 9 + SpaceRun(t, i + 9) < |t|
    ensures LabelGroup(t) == Some(t[i + 9 + SpaceRun(t, i + 9)..IndexOfCharFrom(t, '\n', i + 9 + SpaceRun(t, i + 9))])
  {
    assert LabelGroupAt(t, i).Some?;
    forall k | 0 <= k < i
      ensures LabelGroupAt(t, k).None?
    {
      assert !At(t, k, "Keywords:");
    }
    FindLabelAt(t, 0, i);
  }

  /** The label search stops at the first position where a match starts. */
  lemma {:induction false} FindLabelAt(t: string, from: nat, i: nat)
    requires from <= i < |t| && LabelGroupAt(t, i).Some?
    requires forall k :: from <= k < i ==> LabelGroupAt(t, k).None?
    ensures FindLabel(t, from) == i
    decreases i - from
  {
    if from < i {
      FindLabelAt(t, from + 1, i);
    }
  }

  /**
    `StripLabel` undoes prefixing a label "Keywords:" in any ASCII case and
    any whitespace, for a text that does not itself start with whitespace.
   */
  lemma StripLabelInverse(prefix: string, gap: string, t: string)
    requires |prefix| == 9 && Lower(prefix) == "keywords:"
    requires forall k :: 0 <= k < |gap| ==> IsSpace(gap[k])
    requires t != "" ==> !IsSpace(t[0])
    ensures StripLabel(prefix + gap + t) == t
  {
    var s := prefix + gap + t;
    assert s[..9] == prefix;
    SpaceRunExact(s, 9, |gap|);
    assert s[9 + |gap|..] == t;
  }

  lemma {:induction false} SpaceRunExact(s: string, p: nat, n: nat)
    requires p + n <= |s|
    requires forall k :: p <= k < p + n ==> IsSpace(s[k])
    requires p + n < |s| ==> !IsSpace(s[p + n])
    ensures SpaceRun(s, p) == n
    decreases n
  {
    if n > 0 {
      SpaceRunExact(s, p + 1, n - 1);
    }
  }

  /** The label is removed only once: a doubled label leaves the second one in place. */
  lemma StripLabelOnce()
    ensures StripLabel("Keywords: Keywords: trust") == "Keywords: trust"
  {
    var s := "Keywords: Keywords: trust";
    assert Lower(s[..9]) == "keywords:";
    SpaceRunExact(s, 9, 1);
  }
}
