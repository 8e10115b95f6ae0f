/**
  The scarcity-first reviewer allocation of `assign_reviewers.py`: papers with
  fewest eligible reviewers go first; each paper takes up to two reviewers by
  load-penalised score under a hard per-reviewer capacity, then falls back to
  the least-loaded eligible reviewers.

  The reviewer table is an input (`Roster`: name and method label, in table
  order). The language-model replies are inputs too; only their parsing is
  modelled.
 */
module AssignReviewers {
  import opened Common
  import opened Text
  import opened Sorting

  /** Reviewer names with their method label, in the order of the reviewer table. */
  type Roster = seq<(string, string)>

  /** A paper: its id, its method label (if known), and its reviewer scores in dictionary order. */
  datatype Paper = Paper(id: string, researchMethod: Option<string>, scores: seq<(string, int)>)

  /** An assignment dictionary: paper id to the reviewers assigned, in insertion order. */
  type Assignments = seq<(string, seq<string>)>

  // ---------------------------------------------------------------------------
  // Eligibility
  // ---------------------------------------------------------------------------

  /** The hard method filter: may a reviewer with `reviewerMethod` review a paper with `paperMethod`? */
  predicate Eligible(paperMethod: Option<string>, reviewerMethod: string)
  {
    if paperMethod == Some("Quantitative") then reviewerMethod in ["Quantitative", "Quant/Mixed", "Mixed"]
    else if paperMethod == Some("Qualitative") then reviewerMethod in ["Qualitative", "Mixed"]
    else true
  }

  /** The names in `roster` whose method passes the filter, in roster order. */
  function EligibleNames(roster: Roster, paperMethod: Option<string>): (r: seq<string>)
    ensures |r| <= |roster|
    ensures forall x :: x in r <==> exists i :: 0 <= i < |roster| && roster[i].0 == x && Eligible(paperMethod, roster[i].1)
  {
    if roster == [] then []
    else
      var init := roster[..|roster| - 1];
      var last := roster[|roster| - 1];
      assert forall i :: 0 <= i < |init| ==> init[i] == roster[i];
      EligibleNames(init, paperMethod) + (if Eligible(paperMethod, last.1) then [last.0] else [])
  }

  /** `get_eligible_reviewers`: walks the reviewer table and collects the eligible names. */
  method GetEligibleReviewers(roster: Roster, paperMethod: Option<string>) returns (eligible: seq<string>)
    ensures eligible == EligibleNames(roster, paperMethod)
    ensures forall x :: x in eligible <==> exists i :: 0 <= i < |roster| && roster[i].0 == x && Eligible(paperMethod, roster[i].1)
  {
    eligible := [];
    var i := 0;
    while i < |roster|
      invariant i <= |roster|
      invariant eligible == EligibleNames(roster[..i], paperMethod)
    {
      assert roster[..i + 1][..i] == roster[..i];
      var (name, reviewerMethod) := roster[i];
      if Eligible(paperMethod, reviewerMethod) {
        eligible := eligible + [name];
      }
      i := i + 1;
    }
    assert roster[..i] == roster;
  }

  /** A table without repeated names gives an eligible list without repeats. */
  lemma {:induction false} EligibleNamesDistinct(roster: Roster, paperMethod: Option<string>)
    requires DistinctKeys(roster)
    ensures Distinct(EligibleNames(roster, paperMethod))
    decreases |roster|
  {
    if roster != [] {
      var init := roster[..|roster| - 1];
      assert DistinctKeys(init);
      EligibleNamesDistinct(init, paperMethod);
      var last := roster[|roster| - 1];
      var e := EligibleNames(init, paperMethod);
      forall x | x in e
        ensures x != last.0
      {
        var i :| 0 <= i < |init| && init[i].0 == x && Eligible(paperMethod, init[i].1);
        assert roster[i].0 == x;
      }
      var r := EligibleNames(roster, paperMethod);
      assert r == e + (if Eligible(paperMethod, last.1) then [last.0] else []);
      forall i, j | 0 <= i < j < |r|
        ensures r[i] != r[j]
      {
        if j == |e| {
          assert r[i] == e[i] && r[i] in e;
        }
      }
    }
  }

  // ---------------------------------------------------------------------------
  // Parsing the language-model replies
  // ---------------------------------------------------------------------------

  /** `extract_method`: the first method word found in the upper-cased reply, else Mixed. */
  function ExtractMethod(response: string): (r: string)
    ensures r in ["Quantitative", "Qualitative", "Mixed", "Conceptual"]
    ensures r == "Quantitative" <==> Contains(Upper(response), "QUANTITATIVE")
    ensures r == "Qualitative" <==> !Contains(Upper(response), "QUANTITATIVE") && Contains(Upper(response), "QUALITATIVE")
    ensures r == "Conceptual" <==> !Contains(Upper(response), "QUANTITATIVE") && !Contains(Upper(response), "QUALITATIVE")
                                     && !Contains(Upper(response), "MIXED") && Contains(Upper(response), "CONCEPTUAL")
  {
    var u := Upper(response);
    MethodWordsSurviveStrip(u);
    var t := Strip(u);
    if Contains(t, "QUANTITATIVE") then "Quantitative"
    else if Contains(t, "QUALITATIVE") then "Qualitative"
    else if Contains(t, "MIXED") then "Mixed"
    else if Contains(t, "CONCEPTUAL") then "Conceptual"
    else "Mixed"
  }

  /** `strip()` cannot change which upper-case method words a reply contains. */
  lemma MethodWordsSurviveStrip(u: string)
    ensures Contains(Strip(u), "QUANTITATIVE") == Contains(u, "QUANTITATIVE")
    ensures Contains(Strip(u), "QUALITATIVE") == Contains(u, "QUALITATIVE")
    ensures Contains(Strip(u), "MIXED") == Contains(u, "MIXED")
    ensures Contains(Strip(u), "CONCEPTUAL") == Contains(u, "CONCEPTUAL")
  {
    StripKeepsWords(u, "QUANTITATIVE");
    StripKeepsWords(u, "QUALITATIVE");
    StripKeepsWords(u, "MIXED");
    StripKeepsWords(u, "CONCEPTUAL");
  }

  /** `reviewer.lower() in line.lower()`. */
  predicate Mentions(line: string, name: string)
  {
    Contains(Lower(line), Lower(name))
  }

  /** The first eligible reviewer that a reply line mentions. */
  function FirstMention(eligible: seq<string>, line: string): (r: Option<string>)
    ensures r.Some? ==> r.value in eligible
  {
    if eligible == [] then None
    else if Mentions(line, eligible[0]) then Some(eligible[0])
    else FirstMention(eligible[1..], line)
  }

  /** The mention found is the one at the smallest position. */
  lemma {:induction false} FirstMentionAt(eligible: seq<string>, line: string, j: nat)
    requires j < |eligible| && Mentions(line, eligible[j])
    requires forall k :: 0 <= k < j ==> !Mentions(line, eligible[k])
    ensures FirstMention(eligible, line) == Some(eligible[j])
    decreases j
  {
    if j > 0 {
      FirstMentionAt(eligible[1..], line, j - 1);
    }
  }

  /** A line naming no eligible reviewer has no first mention. */
  lemma {:induction false} FirstMentionNone(eligible: seq<string>, line: string)
    requires forall k :: 0 <= k < |eligible| ==> !Mentions(line, eligible[k])
    ensures FirstMention(eligible, line) == None
    decreases |eligible|
  {
    if eligible != [] {
      FirstMentionNone(eligible[1..], line);
    }
  }

  /** A first mention is a reviewer the line names. */
  lemma {:induction false} FirstMentionMentions(eligible: seq<string>, line: string)
    requires FirstMention(eligible, line).Some?
    ensures Mentions(line, FirstMention(eligible, line).value)
    decreases |eligible|
  {
    if !Mentions(line, eligible[0]) {
      FirstMentionMentions(eligible[1..], line);
    }
  }

  /** `scores[m] = v` when a reviewer `m` was found, and no change otherwise. */
  function Rescore(scores: seq<(string, int)>, m: Option<string>, v: int): (r: seq<(string, int)>)
    requires DistinctKeys(scores)
    ensures DistinctKeys(r)
  {
    if m.Some? then Put(scores, m.value, v) else scores
  }

  /** A rescore changes only the score of the reviewer found. */
  lemma RescoreLookup(scores: seq<(string, int)>, m: Option<string>, v: int, x: string)
    requires DistinctKeys(scores)
    ensures Lookup(Rescore(scores, m, v), x) == if m == Some(x) then Some(v) else Lookup(scores, x)
  {
    if m.Some? {
      LookupPut(scores, m.value, v, x);
    }
  }

  /** The first mention of every line. */
  function Mentioned(lines: seq<string>, eligible: seq<string>): (ms: seq<Option<string>>)
    ensures |ms| == |lines| && forall k :: 0 <= k < |lines| ==> ms[k] == FirstMention(eligible, lines[k])
  {
    seq(|lines|, k requires 0 <= k < |lines| => FirstMention(eligible, lines[k]))
  }

  /** Scores from the lines' first mentions, applied in order: the mention of line `i` is (re)scored `5 - i`. */
  function RankLines(ms: seq<Option<string>>): (r: seq<(string, int)>)
    ensures DistinctKeys(r)
    decreases |ms|
  {
    if ms == [] then []
    else Rescore(RankLines(ms[..|ms| - 1]), ms[|ms| - 1], 5 - (|ms| - 1))
  }

  /** The final pass: every eligible reviewer not yet scored gets 0, appended in eligible order. */
  function FillZeros(eligible: seq<string>, scores: seq<(string, int)>): (r: seq<(string, int)>)
    requires DistinctKeys(scores)
    ensures DistinctKeys(r)
    decreases |eligible|
  {
    if eligible == [] then scores
    else FillZeros(eligible[1..], if eligible[0] in Keys(scores) then scores else Put(scores, eligible[0], 0))
  }

  /** The reply's lines that count: the first five of `response.strip().split('\n')`. */
  function RankedLines(response: string): (r: seq<string>)
    ensures |r| <= 5
  {
    Take(Split(Strip(response), '\n'), 5)
  }

  /** The scores dictionary `rank_reviewers_for_paper` builds from a reply. */
  function RankScores(response: string, eligible: seq<string>): (r: seq<(string, int)>)
    ensures DistinctKeys(r)
  {
    FillZeros(eligible, RankLines(Mentioned(RankedLines(response), eligible)))
  }

  /**
    Reference definition of a reviewer's score, given the first mention of
    each counted line: `5 - i` for the LAST line `i` whose first mention is
    `r`, and 0 when no counted line names it first.
   */
  function RankOf(ms: seq<Option<string>>, r: string): int
  {
    if ms == [] then 0
    else if ms[|ms| - 1] == Some(r) then 5 - (|ms| - 1)
    else RankOf(ms[..|ms| - 1], r)
  }

  /** `rank_reviewers_for_paper` with the reply given: scores by rank, then zeros. */
  method RankReviewersForPaper(response: string, eligible: seq<string>) returns (scores: seq<(string, int)>)
    ensures scores == RankScores(response, eligible)
  {
    var lines := Split(Strip(response), '\n');
    var top := Take(lines, 5);
    ghost var ms := Mentioned(top, eligible);
    scores := [];
    var i := 0;
    while i < |top|
      invariant i <= |top|
      invariant DistinctKeys(scores)
      invariant scores == RankLines(ms[..i])
    {
      RankLinesSnoc(ms, i);
      var j := FirstMentionIndex(eligible, top[i]);
      if j < |eligible| {
        scores := Put(scores, eligible[j], 5 - i);
      }
      i := i + 1;
    }
    assert ms[..|top|] == ms;
    var k := 0;
    while k < |eligible|
      invariant k <= |eligible|
      invariant DistinctKeys(scores)
      invariant FillZeros(eligible[k..], scores) == RankScores(response, eligible)
    {
      ghost var before := scores;
      if eligible[k] !in Keys(scores) {
        scores := Put(scores, eligible[k], 0);
      }
      assert eligible[k..][0] == eligible[k] && eligible[k..][1..] == eligible[k + 1..];
      assert FillZeros(eligible[k..], before) == FillZeros(eligible[k + 1..], scores);
      k := k + 1;
    }
  }

  /** The inner loop of the rank parse: the position of the first eligible reviewer the line names, `|eligible|` for none. */
  method FirstMentionIndex(eligible: seq<string>, line: string) returns (j: nat)
    ensures j <= |eligible|
    ensures FirstMention(eligible, line) == if j < |eligible| then Some(eligible[j]) else None
  {
    j := 0;
    while j < |eligible|
      invariant j <= |eligible|
      invariant forall k :: 0 <= k < j ==> !Mentions(line, eligible[k])
    {
      if Contains(Lower(line), Lower(eligible[j])) {
        FirstMentionAt(eligible, line, j);
        return;
      }
      j := j + 1;
    }
    FirstMentionNone(eligible, line);
  }

  lemma RankLinesSnoc(ms: seq<Option<string>>, i: int)
    requires 0 <= i < |ms| && i <= 4
    ensures RankLines(ms[..i + 1]) == Rescore(RankLines(ms[..i]), ms[i], 5 - i)
  {
    var t := ms[..i + 1];
    RankLinesLast(t);
    assert t[..|t| - 1] == ms[..i];
    assert t[|t| - 1] == ms[i];
  }

  lemma RankLinesLast(t: seq<Option<string>>)
    requires t != []
    ensures RankLines(t) == Rescore(RankLines(t[..|t| - 1]), t[|t| - 1], 5 - (|t| - 1))
  {
  }

  lemma {:induction false} RankLinesKeys(ms: seq<Option<string>>, eligible: seq<string>)
    requires forall k :: 0 <= k < |ms| && ms[k].Some? ==> ms[k].value in eligible
    ensures forall x :: x in Keys(RankLines(ms)) ==> x in eligible
    decreases |ms|
  {
    if ms != [] {
      var init := ms[..|ms| - 1];
      var m := ms[|ms| - 1];
      assert forall k :: 0 <= k < |init| ==> init[k] == ms[k];
      RankLinesKeys(init, eligible);
      if m.Some? {
        PutKeys(RankLines(init), m.value, 5 - |init|);
      }
    }
  }

  lemma {:induction false} FillZerosKeys(eligible: seq<string>, scores: seq<(string, int)>)
    requires DistinctKeys(scores)
    ensures forall x :: x in Keys(FillZeros(eligible, scores)) <==> x in Keys(scores) || x in eligible
    decreases |eligible|
  {
    if eligible != [] {
      var next := if eligible[0] in Keys(scores) then scores else Put(scores, eligible[0], 0);
      PutKeys(scores, eligible[0], 0);
      FillZerosKeys(eligible[1..], next);
      assert forall x :: x in eligible <==> x == eligible[0] || x in eligible[1..];
    }
  }

  /** The scores dictionary has exactly the eligible reviewers as keys. */
  lemma RankScoresKeys(response: string, eligible: seq<string>)
    ensures forall x :: x in Keys(RankScores(response, eligible)) <==> x in eligible
  {
    var ms := Mentioned(RankedLines(response), eligible);
    RankLinesKeys(ms, eligible);
    FillZerosKeys(eligible, RankLines(ms));
  }

  /** One more line: the score found is its rank `v` when the line names `x` first, and the earlier score otherwise. */
  lemma RankStep(before: seq<(string, int)>, m: Option<string>, v: int, x: string, prev: int)
    requires DistinctKeys(before) && v != 0
    requires Lookup(before, x) == if prev == 0 then None else Some(prev)
    ensures var r := if m == Some(x) then v else prev;
            Lookup(Rescore(before, m, v), x) == if r == 0 then None else Some(r)
  {
    RescoreLookup(before, m, v, x);
  }

  /** A reviewer's score after the ranked lines is the score of its last first-mention line. */
  lemma {:induction false} RankLinesOf(ms: seq<Option<string>>, x: string)
    requires |ms| <= 5
    ensures Lookup(RankLines(ms), x) == if RankOf(ms, x) == 0 then None else Some(RankOf(ms, x))
    decreases |ms|
  {
    if ms != [] {
      var init := ms[..|ms| - 1];
      var m := ms[|ms| - 1];
      RankLinesOf(init, x);
      RankStep(RankLines(init), m, 5 - |init|, x, RankOf(init, x));
    }
  }

  lemma {:induction false} FillZerosLookup(eligible: seq<string>, scores: seq<(string, int)>, x: string)
    requires DistinctKeys(scores)
    ensures Lookup(FillZeros(eligible, scores), x)
         == if x in Keys(scores) then Lookup(scores, x) else if x in eligible then Some(0) else None
    decreases |eligible|
  {
    if eligible != [] {
      var next := if eligible[0] in Keys(scores) then scores else Put(scores, eligible[0], 0);
      PutKeys(scores, eligible[0], 0);
      LookupPut(scores, eligible[0], 0, x);
      FillZerosLookup(eligible[1..], next, x);
      assert forall y :: y in eligible <==> y == eligible[0] || y in eligible[1..];
    }
  }

  /**
    Rank parse: every eligible reviewer receives the score of the last of the
    first five reply lines that names it first (5 for line 1 … 1 for line 5),
    or 0 (so a score in 0..5).
   */
  lemma RankScoreOf(response: string, eligible: seq<string>, x: string)
    requires x in eligible
    ensures Lookup(RankScores(response, eligible), x) == Some(RankOf(Mentioned(RankedLines(response), eligible), x))
    ensures 0 <= RankOf(Mentioned(RankedLines(response), eligible), x) <= 5
  {
    var ms := Mentioned(RankedLines(response), eligible);
    RankLinesOf(ms, x);
    RankOfRange(ms, x);
    FillZerosLookup(eligible, RankLines(ms), x);
  }

  lemma {:induction false} RankOfRange(ms: seq<Option<string>>, x: string)
    requires |ms| <= 5
    ensures 0 <= RankOf(ms, x) <= 5
    decreases |ms|
  {
    if ms != [] {
      RankOfRange(ms[..|ms| - 1], x);
    }
  }

  /**
    A later line overrides an earlier one: once line `j` names `x` first, the
    score of `x` is at most the score of line `j`, whatever earlier lines said.
   */
  lemma {:induction false} LaterLineOverrides(ms: seq<Option<string>>, x: string, j: nat)
    requires |ms| <= 5
    requires j < |ms| && ms[j] == Some(x)
    ensures 1 <= RankOf(ms, x) <= 5 - j
    decreases |ms|
  {
    var init := ms[..|ms| - 1];
    if j < |ms| - 1 && ms[|ms| - 1] != Some(x) {
      assert init[j] == ms[j];
      LaterLineOverrides(init, x, j);
    }
  }

  // ---------------------------------------------------------------------------
  // Capacity
  // ---------------------------------------------------------------------------

  /** `calculate_capacity`: `2P // R + 1`, but at least 5. */
  function CalculateCapacity(numPapers: nat, numReviewers: nat): (cap: int)
    requires numReviewers > 0
    ensures cap >= 5
    ensures cap * numReviewers > 2 * numPapers
    ensures cap == 5 || (cap - 1) * numReviewers <= 2 * numPapers
  {
    var base := 2 * numPapers / numReviewers + 1;
    if base >= 5 then base else 5
  }

  // ---------------------------------------------------------------------------
  // Allocation
  // ---------------------------------------------------------------------------

  /** The load ledger: papers assigned so far per reviewer (an absent reviewer has load 0). */
  type Ledger = map<string, int>

  /** `effective_score`: the base score less a load penalty that reaches 2 points at full capacity. */
  function EffectiveScore(load: Ledger, cap: int, reviewer: string, base: int): (e: real)
    requires cap > 0
    ensures 0 <= Get(load, reviewer) <= cap ==> base as real - 2.0 <= e <= base as real
    ensures Get(load, reviewer) == 0 ==> e == base as real
  {
    base as real - (Get(load, reviewer) as real / cap as real) * 2.0
  }

  /** Effective scores of a paper's score entries, in dictionary order. */
  function EffectiveKeys(scores: seq<(string, int)>, load: Ledger, cap: int): (r: seq<real>)
    requires cap > 0
    ensures |r| == |scores|
    ensures forall i :: 0 <= i < |scores| ==> r[i] == EffectiveScore(load, cap, scores[i].0, scores[i].1)
  {
    seq(|scores|, i requires 0 <= i < |scores| => EffectiveScore(load, cap, scores[i].0, scores[i].1))
  }

  /** The paper's scored reviewers by effective score, highest first, ties in dictionary order. */
  function RankedCandidates(scores: seq<(string, int)>, load: Ledger, cap: int): seq<string>
    requires cap > 0
  {
    Keys(SortBy(scores, Descending(EffectiveKeys(scores, load, cap))))
  }

  /** Loads of `names` as sort keys. */
  function LoadKeys(names: seq<string>, load: Ledger): (r: seq<real>)
    ensures |r| == |names|
    ensures forall i :: 0 <= i < |names| ==> r[i] == Get(load, names[i]) as real
  {
    seq(|names|, i requires 0 <= i < |names| => Get(load, names[i]) as real)
  }

  /** The fallback order: eligible reviewers by current load, least loaded first, ties in table order. */
  function FallbackOrder(eligible: seq<string>, load: Ledger): seq<string>
  {
    SortBy(eligible, Ascending(LoadKeys(eligible, load)))
  }

  /**
    The first pass: walk the ranked candidates and take each one whose load is
    below capacity, until two are taken.
   */
  function FirstPass(cands: seq<string>, taken: seq<string>, load: Ledger, cap: int): (res: (seq<string>, Ledger))
    ensures |taken| <= |res.0| && res.0[..|taken|] == taken
    ensures |taken| <= 2 ==> |res.0| <= 2
    ensures forall x :: x in res.0[|taken|..] ==> x in cands
    ensures forall r :: Get(res.1, r) == Get(load, r) + Count(res.0[|taken|..], r)
    ensures (forall r :: Get(load, r) <= cap) ==> forall r :: Get(res.1, r) <= cap
    decreases |cands|
  {
    if cands == [] || |taken| >= 2 then (taken, load)
    else if Get(load, cands[0]) < cap then
      var res := FirstPass(cands[1..], taken + [cands[0]], Bump(load, cands[0]), cap);
      PassStep(taken, cands, load, cap, res);
      res
    else FirstPass(cands[1..], taken, load, cap)
  }

  /**
    The fallback pass: walk the eligible reviewers by load and take each one
    not yet taken to the paper whose load is below capacity, until two.
   */
  function Fallback(cands: seq<string>, taken: seq<string>, load: Ledger, cap: int): (res: (seq<string>, Ledger))
    ensures |taken| <= |res.0| && res.0[..|taken|] == taken
    ensures |taken| <= 2 ==> |res.0| <= 2
    ensures forall x :: x in res.0[|taken|..] ==> x in cands
    ensures forall r :: Get(res.1, r) == Get(load, r) + Count(res.0[|taken|..], r)
    ensures (forall r :: Get(load, r) <= cap) ==> forall r :: Get(res.1, r) <= cap
    decreases |cands|
  {
    if cands == [] || |taken| >= 2 then (taken, load)
    else if cands[0] !in taken && Get(load, cands[0]) < cap then
      var res := Fallback(cands[1..], taken + [cands[0]], Bump(load, cands[0]), cap);
      PassStep(taken, cands, load, cap, res);
      res
    else Fallback(cands[1..], taken, load, cap)
  }

  /** The fallback never takes a reviewer twice: it skips those already taken. */
  lemma {:induction false} FallbackDistinct(cands: seq<string>, taken: seq<string>, load: Ledger, cap: int)
    requires Distinct(taken)
    ensures Distinct(Fallback(cands, taken, load, cap).0)
    decreases |cands|
  {
    if cands != [] && |taken| < 2 {
      if cands[0] !in taken && Get(load, cands[0]) < cap {
        var next := taken + [cands[0]];
        assert Distinct(next) by {
          forall i, j | 0 <= i < j < |next|
            ensures next[i] != next[j]
          {
            if j == |taken| {
              assert next[i] == taken[i];
            }
          }
        }
        FallbackDistinct(cands[1..], next, Bump(load, cands[0]), cap);
      } else {
        FallbackDistinct(cands[1..], taken, load, cap);
      }
    }
  }

  /**
    The shortfall explanation: when the fallback ends with fewer than two, every
    candidate it walked past is either taken or at full capacity.
   */
  lemma {:induction false} FallbackShortfall(cands: seq<string>, taken: seq<string>, load: Ledger, cap: int)
    ensures var res := Fallback(cands, taken, load, cap);
            |res.0| < 2 ==> forall x :: x in cands ==> x in res.0 || Get(res.1, x) >= cap
    decreases |cands|
  {
    var res := Fallback(cands, taken, load, cap);
    if cands != [] && |taken| < 2 {
      var c := cands[0];
      if c !in taken && Get(load, c) < cap {
        FallbackShortfall(cands[1..], taken + [c], Bump(load, c), cap);
        assert res.0[..|taken| + 1] == taken + [c];
        assert c in res.0 by {
          assert res.0[|taken|] == c;
        }
      } else {
        FallbackShortfall(cands[1..], taken, load, cap);
        if c in taken {
          assert res.0[..|taken|] == taken;
          var i :| 0 <= i < |taken| && taken[i] == c;
          assert res.0[i] == c;
        } else {
          assert Count(res.0[|taken|..], c) >= 0;
        }
      }
      assert forall x :: x in cands ==> x == c || x in cands[1..];
    }
  }

  /**
    Taking the first candidate and then continuing: what the rest of the
    pass promises from the extended list and the bumped ledger, restated
    from the list and the ledger before the take.
   */
  lemma PassStep(taken: seq<string>, cands: seq<string>, load: Ledger, cap: int, res: (seq<string>, Ledger))
    requires cands != [] && |taken| < 2 && Get(load, cands[0]) < cap
    requires |taken| + 1 <= |res.0| && res.0[..|taken| + 1] == taken + [cands[0]]
    requires |res.0| <= 2
    requires forall x :: x in res.0[|taken| + 1..] ==> x in cands[1..]
    requires forall r :: Get(res.1, r) == Get(Bump(load, cands[0]), r) + Count(res.0[|taken| + 1..], r)
    requires (forall r :: Get(Bump(load, cands[0]), r) <= cap) ==> forall r :: Get(res.1, r) <= cap
    ensures |taken| <= |res.0| && res.0[..|taken|] == taken
    ensures forall x :: x in res.0[|taken|..] ==> x in cands
    ensures forall r :: Get(res.1, r) == Get(load, r) + Count(res.0[|taken|..], r)
    ensures (forall r :: Get(load, r) <= cap) ==> forall r :: Get(res.1, r) <= cap
  {
    var c := cands[0];
    assert res.0[..|taken| + 1][..|taken|] == res.0[..|taken|];
    assert res.0[|taken|] == c by {
      assert res.0[..|taken| + 1][|taken|] == c;
    }
    assert res.0[|taken|..] == [res.0[|taken|]] + res.0[|taken| + 1..];
    forall x | x in res.0[|taken|..]
      ensures x in cands
    {
      if x != c {
        assert x in res.0[|taken| + 1..];
        assert x in cands[1..];
      }
    }
    forall r
      ensures Get(res.1, r) == Get(load, r) + Count(res.0[|taken|..], r)
    {
      assert Count(res.0[|taken|..], r) == (if r == c then 1 else 0) + Count(res.0[|taken| + 1..], r);
    }
  }

  /** One paper's picks: the first pass, then the fallback when fewer than two were taken. */
  function PaperPicks(roster: Roster, cap: int, p: Paper, load: Ledger): (seq<string>, Ledger)
    requires cap > 0
  {
    var first := FirstPass(RankedCandidates(p.scores, load, cap), [], load, cap);
    if |first.0| < 2 then Fallback(FallbackOrder(EligibleNames(roster, p.researchMethod), first.1), first.0, first.1, cap)
    else first
  }

  /** The commit loop over papers in processing order: each paper's picks are recorded and the ledger carried on. */
  function Run(roster: Roster, cap: int, papers: seq<Paper>, assignments: Assignments, load: Ledger): (res: (Assignments, Ledger))
    requires cap > 0 && DistinctKeys(assignments)
    ensures DistinctKeys(res.0)
    decreases |papers|
  {
    if papers == [] then (assignments, load)
    else
      var picks := PaperPicks(roster, cap, papers[0], load);
      Run(roster, cap, papers[1..], Put(assignments, papers[0].id, picks.0), picks.1)
  }

  /** Eligible-reviewer counts of the papers, the processing-order key. */
  function EligibleCounts(roster: Roster, papers: seq<Paper>): (r: seq<real>)
    ensures |r| == |papers|
    ensures forall i :: 0 <= i < |papers| ==> r[i] == |EligibleNames(roster, papers[i].researchMethod)| as real
  {
    seq(|papers|, i requires 0 <= i < |papers| => |EligibleNames(roster, papers[i].researchMethod)| as real)
  }

  /** Processing order: fewest eligible reviewers first, ties in input order. */
  function PaperOrder(roster: Roster, papers: seq<Paper>): seq<Paper>
  {
    SortBy(papers, Ascending(EligibleCounts(roster, papers)))
  }

  /** What `assign_reviewers` returns: the assignment dictionary and the load ledger. */
  function Allocation(roster: Roster, papers: seq<Paper>, cap: int): (Assignments, Ledger)
    requires cap > 0
  {
    Run(roster, cap, PaperOrder(roster, papers), [], map[])
  }

  /** A pass over distinct candidates, none already taken, takes no reviewer twice. */
  lemma {:induction false} FirstPassDistinct(cands: seq<string>, taken: seq<string>, load: Ledger, cap: int)
    requires Distinct(cands) && Distinct(taken)
    requires forall x :: x in taken ==> x !in cands
    ensures Distinct(FirstPass(cands, taken, load, cap).0)
    decreases |cands|
  {
    if cands != [] && |taken| < 2 {
      assert Distinct(cands[1..]);
      if Get(load, cands[0]) < cap {
        var next := taken + [cands[0]];
        assert Distinct(next) by {
          forall i, j | 0 <= i < j < |next|
            ensures next[i] != next[j]
          {
            if j == |taken| {
              assert next[i] == taken[i];
              assert taken[i] in taken && cands[0] in cands;
            }
          }
        }
        forall x | x in next
          ensures x !in cands[1..]
        {
          if x == cands[0] {
            forall k | 0 <= k < |cands[1..]|
              ensures cands[1..][k] != x
            {
              assert cands[1..][k] == cands[k + 1];
            }
          }
        }
        FirstPassDistinct(cands[1..], next, Bump(load, cands[0]), cap);
      } else {
        FirstPassDistinct(cands[1..], taken, load, cap);
      }
    }
  }

  /** The ranked candidates are the paper's scored reviewers, each once. */
  lemma RankedCandidatesMembers(scores: seq<(string, int)>, load: Ledger, cap: int)
    requires cap > 0 && DistinctKeys(scores)
    ensures Distinct(RankedCandidates(scores, load, cap))
    ensures forall x :: x in RankedCandidates(scores, load, cap) <==> x in Keys(scores)
  {
    var keys := Descending(EffectiveKeys(scores, load, cap));
    var order := StableOrder(keys);
    var sorted := SortBy(scores, keys);
    var r := Keys(sorted);
    StableOrderSorted(keys);
    SortedDistinct(keys, order);
    forall a, b | 0 <= a < b < |r|
      ensures r[a] != r[b]
    {
      assert r[a] == scores[order[a]].0 && r[b] == scores[order[b]].0;
      assert order[a] != order[b];
    }
    SortByMembers(scores, keys);
    forall x
      ensures x in r <==> x in Keys(scores)
    {
      if x in r {
        var a :| 0 <= a < |r| && r[a] == x;
        assert sorted[a] in scores;
        var i :| 0 <= i < |scores| && scores[i] == sorted[a];
        assert Keys(scores)[i] == x;
      }
      if x in Keys(scores) {
        var i :| 0 <= i < |scores| && Keys(scores)[i] == x;
        assert scores[i] in sorted;
        var a :| 0 <= a < |sorted| && sorted[a] == scores[i];
        assert r[a] == x;
      }
    }
  }

  /**
    One paper: at most two reviewers, none twice, each taken from the paper's
    scores or its eligible list; each taken reviewer's load rises by exactly
    one and stays within capacity; and a paper left short has every eligible
    reviewer it lacks at full capacity.
   */
  ghost predicate PaperOutcome(roster: Roster, cap: int, p: Paper, picked: seq<string>, load: Ledger)
  {
    && |picked| <= 2
    && Distinct(picked)
    && (forall x :: x in picked ==> x in Keys(p.scores) || x in EligibleNames(roster, p.researchMethod))
    && (|picked| < 2 ==> forall x :: x in EligibleNames(roster, p.researchMethod) ==> x in picked || Get(load, x) >= cap)
  }

  /** The paper has an entry in `assignments`, and that entry satisfies the per-paper outcome. */
  ghost predicate Settled(roster: Roster, cap: int, p: Paper, assignments: Assignments, load: Ledger)
  {
    var entry := Lookup(assignments, p.id);
    entry.Some? && PaperOutcome(roster, cap, p, entry.value, load)
  }

  /** No reviewer's load exceeds the capacity. */
  ghost predicate Bounded(load: Ledger, cap: int)
  {
    forall r :: Get(load, r) <= cap
  }

  lemma PaperPicksFacts(roster: Roster, cap: int, p: Paper, load: Ledger)
    requires cap > 0 && DistinctKeys(p.scores) && Bounded(load, cap)
    ensures PaperOutcome(roster, cap, p, PaperPicks(roster, cap, p, load).0, PaperPicks(roster, cap, p, load).1)
    ensures Bounded(PaperPicks(roster, cap, p, load).1, cap)
    ensures forall r :: Get(PaperPicks(roster, cap, p, load).1, r) == Get(load, r) + if r in PaperPicks(roster, cap, p, load).0 then 1 else 0
  {
    var ranked := RankedCandidates(p.scores, load, cap);
    RankedCandidatesMembers(p.scores, load, cap);
    var first := FirstPass(ranked, [], load, cap);
    FirstPassDistinct(ranked, [], load, cap);
    assert first.0[0..] == first.0;
    var eligible := EligibleNames(roster, p.researchMethod);
    var res := PaperPicks(roster, cap, p, load);
    if |first.0| < 2 {
      var order := FallbackOrder(eligible, first.1);
      SortByMembers(eligible, Ascending(LoadKeys(eligible, first.1)));
      FallbackDistinct(order, first.0, first.1, cap);
      FallbackShortfall(order, first.0, first.1, cap);
      assert res.0 == first.0 + res.0[|first.0|..];
      forall r
        ensures Count(res.0, r) == Count(first.0, r) + Count(res.0[|first.0|..], r)
      {
        CountAppend(first.0, res.0[|first.0|..], r);
      }
      forall x | x in res.0
        ensures x in Keys(p.scores) || x in eligible
      {
        if x !in first.0 {
          assert x in res.0[|first.0|..];
        }
      }
    }
    forall r
      ensures Get(res.1, r) == Get(load, r) + if r in res.0 then 1 else 0
    {
      CountDistinct(res.0, r);
    }
  }

  /** Every entry of an assignment dictionary has at most two reviewers, none twice. */
  ghost predicate WellFormed(assignments: Assignments)
  {
    forall i :: 0 <= i < |assignments| ==> |assignments[i].1| <= 2 && Distinct(assignments[i].1)
  }

  /** The paper ids are pairwise different. */
  ghost predicate DistinctIds(papers: seq<Paper>)
  {
    forall i, j :: 0 <= i < j < |papers| ==> papers[i].id != papers[j].id
  }

  /** Every paper's score dictionary has distinct keys (it is a dictionary). */
  ghost predicate ScoreDicts(papers: seq<Paper>)
  {
    forall i :: 0 <= i < |papers| ==> DistinctKeys(papers[i].scores)
  }

  /** The paper ids, in order. */
  function Ids(papers: seq<Paper>): (r: seq<string>)
    ensures |r| == |papers|
    ensures forall i :: 0 <= i < |papers| ==> r[i] == papers[i].id
  {
    seq(|papers|, i requires 0 <= i < |papers| => papers[i].id)
  }

  /**
    The commit loop keeps its invariants: every entry has at most two distinct
    reviewers and no load exceeds capacity.
   */
  lemma {:induction false} RunInvariant(roster: Roster, cap: int, papers: seq<Paper>, assignments: Assignments, load: Ledger)
    requires cap > 0 && DistinctKeys(assignments) && ScoreDicts(papers)
    requires WellFormed(assignments) && Bounded(load, cap)
    ensures WellFormed(Run(roster, cap, papers, assignments, load).0)
    ensures Bounded(Run(roster, cap, papers, assignments, load).1, cap)
    decreases |papers|
  {
    if papers != [] {
      var p := papers[0];
      var picks := PaperPicks(roster, cap, p, load);
      PaperPicksFacts(roster, cap, p, load);
      var next := Put(assignments, p.id, picks.0);
      assert WellFormed(next);
      assert ScoreDicts(papers[1..]);
      RunInvariant(roster, cap, papers[1..], next, picks.1);
    }
  }

  /** The ids of a non-empty list are its first id and the ids of the rest. */
  lemma IdsCons(papers: seq<Paper>)
    requires papers != []
    ensures forall x :: x in Ids(papers) <==> x == papers[0].id || x in Ids(papers[1..])
  {
    assert Ids(papers) == [papers[0].id] + Ids(papers[1..]);
  }

  /** Every processed paper id gets an entry, and no other key appears. */
  lemma {:induction false} RunKeys(roster: Roster, cap: int, papers: seq<Paper>, assignments: Assignments, load: Ledger)
    requires cap > 0 && DistinctKeys(assignments)
    ensures forall x :: x in Keys(Run(roster, cap, papers, assignments, load).0) <==> x in Keys(assignments) || x in Ids(papers)
    decreases |papers|
  {
    if papers != [] {
      var p := papers[0];
      var picks := PaperPicks(roster, cap, p, load);
      var next := Put(assignments, p.id, picks.0);
      assert Run(roster, cap, papers, assignments, load) == Run(roster, cap, papers[1..], next, picks.1);
      PutKeys(assignments, p.id, picks.0);
      RunKeys(roster, cap, papers[1..], next, picks.1);
      IdsCons(papers);
    }
  }

  /** Later papers with other ids leave a paper's entry alone. */
  lemma {:induction false} RunKeepsEntry(roster: Roster, cap: int, papers: seq<Paper>, assignments: Assignments, load: Ledger, k: string)
    requires cap > 0 && DistinctKeys(assignments)
    requires forall i :: 0 <= i < |papers| ==> papers[i].id != k
    ensures Lookup(Run(roster, cap, papers, assignments, load).0, k) == Lookup(assignments, k)
    decreases |papers|
  {
    if papers != [] {
      var picks := PaperPicks(roster, cap, papers[0], load);
      LookupPut(assignments, papers[0].id, picks.0, k);
      RunKeepsEntry(roster, cap, papers[1..], Put(assignments, papers[0].id, picks.0), picks.1, k);
    }
  }

  /** Every paper's recorded entry satisfies the per-paper outcome against the final ledger. */
  lemma {:induction false} RunOutcome(roster: Roster, cap: int, papers: seq<Paper>, assignments: Assignments, load: Ledger)
    requires cap > 0 && DistinctKeys(assignments) && ScoreDicts(papers) && Bounded(load, cap)
    requires DistinctIds(papers)
    ensures forall i :: 0 <= i < |papers| ==>
              Settled(roster, cap, papers[i], Run(roster, cap, papers, assignments, load).0, Run(roster, cap, papers, assignments, load).1)
    decreases |papers|
  {
    if papers != [] {
      var p := papers[0];
      var picks := PaperPicks(roster, cap, p, load);
      PaperPicksFacts(roster, cap, p, load);
      var next := Put(assignments, p.id, picks.0);
      var res := Run(roster, cap, papers, assignments, load);
      assert res == Run(roster, cap, papers[1..], next, picks.1);
      assert ScoreDicts(papers[1..]);
      assert DistinctIds(papers[1..]);
      RunOutcome(roster, cap, papers[1..], next, picks.1);
      RunKeepsEntry(roster, cap, papers[1..], next, picks.1, p.id);
      LookupPut(assignments, p.id, picks.0, p.id);
      RunLoadsGrow(roster, cap, papers[1..], next, picks.1);
      forall i | 0 <= i < |papers|
        ensures Settled(roster, cap, papers[i], res.0, res.1)
      {
        if i > 0 {
          assert papers[i] == papers[1..][i - 1];
        }
      }
    }
  }

  /** Loads only grow over the commit loop. */
  lemma {:induction false} RunLoadsGrow(roster: Roster, cap: int, papers: seq<Paper>, assignments: Assignments, load: Ledger)
    requires cap > 0 && DistinctKeys(assignments) && ScoreDicts(papers) && Bounded(load, cap)
    ensures forall r :: Get(load, r) <= Get(Run(roster, cap, papers, assignments, load).1, r)
    decreases |papers|
  {
    if papers != [] {
      var picks := PaperPicks(roster, cap, papers[0], load);
      PaperPicksFacts(roster, cap, papers[0], load);
      assert ScoreDicts(papers[1..]);
      RunLoadsGrow(roster, cap, papers[1..], Put(assignments, papers[0].id, picks.0), picks.1);
    }
  }

  /**
    With distinct paper ids, each reviewer's final load is the number of
    papers whose list names it.
   */
  lemma {:induction false} RunLoads(roster: Roster, cap: int, papers: seq<Paper>, assignments: Assignments, load: Ledger)
    requires cap > 0 && DistinctKeys(assignments) && ScoreDicts(papers) && Bounded(load, cap)
    requires DistinctIds(papers) && forall i :: 0 <= i < |papers| ==> papers[i].id !in Keys(assignments)
    requires forall r :: Get(load, r) == Holders(assignments, r)
    ensures forall r :: Get(Run(roster, cap, papers, assignments, load).1, r) == Holders(Run(roster, cap, papers, assignments, load).0, r)
    decreases |papers|
  {
    if papers != [] {
      var p := papers[0];
      var picks := PaperPicks(roster, cap, p, load);
      PaperPicksFacts(roster, cap, p, load);
      var next := Put(assignments, p.id, picks.0);
      assert next == assignments + [(p.id, picks.0)];
      forall r
        ensures Get(picks.1, r) == Holders(next, r)
      {
        HoldersAppend(assignments, (p.id, picks.0), r);
      }
      PutKeys(assignments, p.id, picks.0);
      forall i | 0 <= i < |papers[1..]|
        ensures papers[1..][i].id !in Keys(next)
      {
        assert papers[1..][i] == papers[i + 1];
      }
      assert ScoreDicts(papers[1..]);
      assert DistinctIds(papers[1..]);
      RunLoads(roster, cap, papers[1..], next, picks.1);
    }
  }

  // ---------------------------------------------------------------------------
  // Processing order and the whole allocation
  // ---------------------------------------------------------------------------

  /** Positions of the papers in processing order. */
  ghost function ProcessingOrder(roster: Roster, papers: seq<Paper>): seq<nat>
  {
    StableOrder(Ascending(EligibleCounts(roster, papers)))
  }

  /**
    The processing order is a permutation of the papers, never puts a paper
    with more eligible reviewers before one with fewer, and keeps input order
    among papers with equally many.
   */
  lemma PaperOrderSorted(roster: Roster, papers: seq<Paper>)
    ensures multiset(PaperOrder(roster, papers)) == multiset(papers)
    ensures forall a :: 0 <= a < |papers| ==> PaperOrder(roster, papers)[a] == papers[ProcessingOrder(roster, papers)[a]]
    ensures forall a, b :: 0 <= a < b < |papers| ==>
              |EligibleNames(roster, PaperOrder(roster, papers)[a].researchMethod)|
              <= |EligibleNames(roster, PaperOrder(roster, papers)[b].researchMethod)|
    ensures forall a, b :: 0 <= a < b < |papers| &&
              |EligibleNames(roster, PaperOrder(roster, papers)[a].researchMethod)|
              == |EligibleNames(roster, PaperOrder(roster, papers)[b].researchMethod)|
              ==> ProcessingOrder(roster, papers)[a] < ProcessingOrder(roster, papers)[b]
  {
    var counts := EligibleCounts(roster, papers);
    var keys := Ascending(counts);
    var order := StableOrder(keys);
    var po := PaperOrder(roster, papers);
    SortByPermutation(papers, keys);
    StableOrderSorted(keys);
    forall a, b | 0 <= a < b < |papers|
      ensures |EligibleNames(roster, po[a].researchMethod)| <= |EligibleNames(roster, po[b].researchMethod)|
    {
      assert !KeyLess(keys[order[b]], keys[order[a]]);
      assert keys[order[a]] == Num(counts[order[a]]) && keys[order[b]] == Num(counts[order[b]]);
    }
    forall a, b | 0 <= a < b < |papers| &&
        |EligibleNames(roster, po[a].researchMethod)| == |EligibleNames(roster, po[b].researchMethod)|
      ensures order[a] < order[b]
    {
      assert keys[order[a]] == Num(counts[order[a]]) && keys[order[b]] == Num(counts[order[b]]);
    }
  }

  /** Reordering keeps the papers, their score dictionaries and distinct ids. */
  lemma PaperOrderKeeps(roster: Roster, papers: seq<Paper>)
    ensures forall p :: p in PaperOrder(roster, papers) <==> p in papers
    ensures ScoreDicts(papers) ==> ScoreDicts(PaperOrder(roster, papers))
    ensures DistinctIds(papers) ==> DistinctIds(PaperOrder(roster, papers))
    ensures forall x :: x in Ids(PaperOrder(roster, papers)) <==> x in Ids(papers)
  {
    var keys := Ascending(EligibleCounts(roster, papers));
    var order := StableOrder(keys);
    var po := PaperOrder(roster, papers);
    SortByMembers(papers, keys);
    if ScoreDicts(papers) {
      forall a | 0 <= a < |po|
        ensures DistinctKeys(po[a].scores)
      {
        assert po[a] in papers;
      }
    }
    if DistinctIds(papers) {
      PaperOrderDistinct(roster, papers);
    }
    MembersKeepIds(po, papers);
  }

  /** Sorting the papers keeps their ids distinct. */
  lemma PaperOrderDistinct(roster: Roster, papers: seq<Paper>)
    requires DistinctIds(papers)
    ensures DistinctIds(PaperOrder(roster, papers))
  {
    var keys := Ascending(EligibleCounts(roster, papers));
    var order := StableOrder(keys);
    var po := PaperOrder(roster, papers);
    StableOrderSorted(keys);
    SortedDistinct(keys, order);
    forall a, b | 0 <= a < b < |po|
      ensures po[a].id != po[b].id
    {
      assert po[a] == papers[order[a]] && po[b] == papers[order[b]];
      if order[a] > order[b] {
        assert papers[order[b]].id != papers[order[a]].id;
      }
    }
  }

  /** Two paper lists with the same members have the same ids. */
  lemma MembersKeepIds(po: seq<Paper>, papers: seq<Paper>)
    requires forall p :: p in po <==> p in papers
    ensures forall x :: x in Ids(po) <==> x in Ids(papers)
  {
    forall x
      ensures x in Ids(po) <==> x in Ids(papers)
    {
      if x in Ids(po) {
        var a :| 0 <= a < |po| && Ids(po)[a] == x;
        assert po[a] in papers;
        var i :| 0 <= i < |papers| && papers[i] == po[a];
        assert Ids(papers)[i] == x;
      }
      if x in Ids(papers) {
        var i :| 0 <= i < |papers| && Ids(papers)[i] == x;
        assert papers[i] in po;
        var a :| 0 <= a < |po| && po[a] == papers[i];
        assert Ids(po)[a] == x;
      }
    }
  }

  /**
    The allocation's shape: every entry has at most two distinct reviewers, no
    reviewer exceeds capacity, and the entries are exactly the papers' ids.
   */
  lemma AllocationShape(roster: Roster, papers: seq<Paper>, cap: int)
    requires cap > 0 && ScoreDicts(papers)
    ensures WellFormed(Allocation(roster, papers, cap).0)
    ensures Bounded(Allocation(roster, papers, cap).1, cap)
    ensures forall x :: x in Keys(Allocation(roster, papers, cap).0) <==> x in Ids(papers)
  {
    var po := PaperOrder(roster, papers);
    PaperOrderKeeps(roster, papers);
    RunInvariant(roster, cap, po, [], map[]);
    RunKeys(roster, cap, po, [], map[]);
  }

  /**
    With distinct paper ids: the returned ledger counts, for every reviewer,
    the papers that name it, and every paper's entry satisfies the per-paper
    outcome (at most two distinct reviewers drawn from its scores or eligible
    list, and a shortfall only when every missing eligible reviewer is full).
   */
  lemma AllocationAccounting(roster: Roster, papers: seq<Paper>, cap: int)
    requires cap > 0 && ScoreDicts(papers) && DistinctIds(papers)
    ensures forall r :: Get(Allocation(roster, papers, cap).1, r) == Holders(Allocation(roster, papers, cap).0, r)
    ensures forall i :: 0 <= i < |papers| ==>
              Settled(roster, cap, papers[i], Allocation(roster, papers, cap).0, Allocation(roster, papers, cap).1)
  {
    PaperOrderKeeps(roster, papers);
    var po := PaperOrder(roster, papers);
    RunLoads(roster, cap, po, [], map[]);
    AllocationOutcomes(roster, papers, cap);
  }

  /** Every paper's entry in the allocation satisfies the per-paper outcome. */
  lemma AllocationOutcomes(roster: Roster, papers: seq<Paper>, cap: int)
    requires cap > 0 && ScoreDicts(papers) && DistinctIds(papers)
    ensures forall i :: 0 <= i < |papers| ==>
              Settled(roster, cap, papers[i], Allocation(roster, papers, cap).0, Allocation(roster, papers, cap).1)
  {
    PaperOrderKeeps(roster, papers);
    var po := PaperOrder(roster, papers);
    var res := Allocation(roster, papers, cap);
    RunOutcome(roster, cap, po, [], map[]);
    forall i | 0 <= i < |papers|
      ensures Settled(roster, cap, papers[i], res.0, res.1)
    {
      assert papers[i] in po;
      var a :| 0 <= a < |po| && po[a] == papers[i];
      assert Settled(roster, cap, po[a], res.0, res.1);
    }
  }

  // ---------------------------------------------------------------------------
  // The greedy allocation as the script runs it
  // ---------------------------------------------------------------------------

  /** The first pass as the script's loop runs it. */
  method FirstPassLoop(ranked: seq<string>, load0: Ledger, cap: int) returns (taken: seq<string>, load: Ledger)
    ensures (taken, load) == FirstPass(ranked, [], load0, cap)
  {
    taken := [];
    load := load0;
    var j := 0;
    while j < |ranked|
      invariant j <= |ranked|
      invariant FirstPass(ranked[j..], taken, load, cap) == FirstPass(ranked, [], load0, cap)
    {
      if |taken| >= 2 {
        break;
      }
      var reviewer := ranked[j];
      assert ranked[j..][0] == reviewer && ranked[j..][1..] == ranked[j + 1..];
      if Get(load, reviewer) < cap {
        taken := taken + [reviewer];
        load := Bump(load, reviewer);
      }
      j := j + 1;
    }
    if j == |ranked| {
      assert ranked[j..] == [];
    }
  }

  /** The fallback pass as the script's loop runs it. */
  method FallbackLoop(eligibleSorted: seq<string>, taken0: seq<string>, load0: Ledger, cap: int) returns (taken: seq<string>, load: Ledger)
    ensures (taken, load) == Fallback(eligibleSorted, taken0, load0, cap)
  {
    taken := taken0;
    load := load0;
    var k := 0;
    while k < |eligibleSorted|
      invariant k <= |eligibleSorted|
      invariant Fallback(eligibleSorted[k..], taken, load, cap) == Fallback(eligibleSorted, taken0, load0, cap)
    {
      if |taken| >= 2 {
        break;
      }
      var reviewer := eligibleSorted[k];
      assert eligibleSorted[k..][0] == reviewer && eligibleSorted[k..][1..] == eligibleSorted[k + 1..];
      if reviewer !in taken && Get(load, reviewer) < cap {
        taken := taken + [reviewer];
        load := Bump(load, reviewer);
      }
      k := k + 1;
    }
    if k == |eligibleSorted| {
      assert eligibleSorted[k..] == [];
    }
  }

  /** One paper: the first pass over the ranked candidates, then the fallback when short. */
  method AssignPaper(roster: Roster, cap: int, paper: Paper, load0: Ledger) returns (taken: seq<string>, load: Ledger)
    requires cap > 0
    ensures (taken, load) == PaperPicks(roster, cap, paper, load0)
  {
    var ranked := RankedCandidates(paper.scores, load0, cap);
    taken, load := FirstPassLoop(ranked, load0, cap);
    if |taken| < 2 {
      var eligible := GetEligibleReviewers(roster, paper.researchMethod);
      var eligibleSorted := FallbackOrder(eligible, load);
      taken, load := FallbackLoop(eligibleSorted, taken, load, cap);
    }
  }

  /**
    `assign_reviewers`: order the papers by eligible-reviewer count, then give
    each paper its picks and record them, carrying the ledger from paper to
    paper. Every scored reviewer must be in the reviewer table (the script
    looks their capacity up there).
   */
  method Allocate(roster: Roster, papers: seq<Paper>, cap: int) returns (assignments: Assignments, load: Ledger)
    requires cap > 0 && ScoreDicts(papers)
    requires forall i, k :: 0 <= i < |papers| && k in Keys(papers[i].scores) ==> k in Keys(roster)
    ensures (assignments, load) == Allocation(roster, papers, cap)
  {
    var sorted := PaperOrder(roster, papers);
    assignments := [];
    load := map[];
    var n := 0;
    while n < |sorted|
      invariant n <= |sorted|
      invariant DistinctKeys(assignments)
      invariant Run(roster, cap, sorted[n..], assignments, load) == Allocation(roster, papers, cap)
    {
      var paper := sorted[n];
      assert sorted[n..][0] == paper && sorted[n..][1..] == sorted[n + 1..];
      ghost var before := Run(roster, cap, sorted[n..], assignments, load);
      var taken;
      taken, load := AssignPaper(roster, cap, paper, load);
      assignments := Put(assignments, paper.id, taken);
      assert before == Run(roster, cap, sorted[n + 1..], assignments, load);
      n := n + 1;
    }
    assert sorted[n..] == [];
  }
}
