/**
  The hybrid allocation script (`assign_reviewers_real.py`): papers and
  reviewers carry keyword sets; each paper keeps its four best keyword
  matches among the method-compatible reviewers; a language model scores
  those pairs; and one global greedy pass over all scored pairs, best score
  first, commits up to two reviewers per paper under a common load cap.
 */
module AssignReviewersReal {
  import opened Common
  import opened Text
  import opened Sorting
  import opened Patterns

  /** `CANDIDATES_PER_PAPER`. */
  const CandidatesPerPaper: nat := 4

  /** The stopwords `Paper._extract_keywords` drops from the abstract. */
  const Stopwords: set<string> := {"the", "and", "for", "with", "that", "this", "from", "paper", "study", "results", "using", "data"}

  /** A reviewer as the engine sees it: an identifier, a display name, a method label and a keyword set. */
  datatype Reviewer = Reviewer(id: string, name: string, researchMethod: string, keywords: set<string>)

  /** A paper as the engine sees it; the method is filled in by the classifier. */
  datatype Paper = Paper(id: string, title: string, abstractText: string, researchMethod: Option<string>, keywords: set<string>)

  /** `Paper(...)` with `__post_init__`: the keyword set is built from the keywords field and the abstract. */
  method NewPaper(id: string, title: string, abstractText: string, keywordsField: string) returns (p: Paper)
    ensures p == Paper(id, title, abstractText, None, KeywordSet(keywordsField, abstractText, Stopwords))
    ensures forall w :: w in p.keywords ==> IsLowerCase(w) && |w| > 2
  {
    var words := ExtractKeywordSet(keywordsField, abstractText, Stopwords);
    p := Paper(id, title, abstractText, None, words);
    forall w | w in p.keywords
      ensures IsLowerCase(w) && |w| > 2
    {
      KeywordSetTerms(keywordsField, abstractText, Stopwords, w);
    }
  }

  // ---------------------------------------------------------------------------
  // Reviewer keyword sets
  // ---------------------------------------------------------------------------

  /** Words longer than three characters of the lower-cased profile entries. */
  function ProfileTerms(items: seq<string>): set<string>
  {
    if items == [] then {} else ProfileTerms(items[..|items| - 1]) + LongOnes(Words(Lower(items[|items| - 1])), 3, {})
  }

  /** Profile terms are lower-case words of some entry, longer than three characters and free of whitespace. */
  lemma {:induction false} ProfileTermsFrom(items: seq<string>, w: string)
    requires w in ProfileTerms(items)
    ensures |w| > 3 && IsLowerCase(w) && forall k :: 0 <= k < |w| ==> !IsSpace(w[k])
    ensures exists i :: 0 <= i < |items| && w in Words(Lower(items[i]))
    decreases |items|
  {
    var init := items[..|items| - 1];
    var last := items[|items| - 1];
    if w in ProfileTerms(init) {
      ProfileTermsFrom(init, w);
      var i :| 0 <= i < |init| && w in Words(Lower(init[i]));
      assert init[i] == items[i];
    } else {
      var ws := Words(Lower(last));
      LongOnesMembers(ws, 3, {}, w);
      LowerIsLowerCase(last);
      WordsOfLowerCase(Lower(last));
      WordsAreWords(Lower(last));
      var k :| 0 <= k < |ws| && ws[k] == w;
      assert IsWord(ws[k]);
      assert w in Words(Lower(items[|items| - 1]));
    }
  }

  /** The loop `for t in items: for w in t.lower().split(): if len(w) > 3: kw_set.add(w)`. */
  method AddProfileTerms(words0: set<string>, items: seq<string>) returns (words: set<string>)
    ensures words == words0 + ProfileTerms(items)
  {
    words := words0;
    var i := 0;
    while i < |items|
      invariant i <= |items|
      invariant words == words0 + ProfileTerms(items[..i])
    {
      assert items[..i + 1][..i] == items[..i] && items[..i + 1][i] == items[i];
      words := AddLongOnes(words, Words(Lower(items[i])), 3, {});
      i := i + 1;
    }
    assert items[..i] == items;
  }

  /** A reviewer's keyword set: the long words of its profile topics, then of its theories. */
  method ReviewerKeywords(topics: seq<string>, theories: seq<string>) returns (kwSet: set<string>)
    ensures kwSet == ProfileTerms(topics) + ProfileTerms(theories)
  {
    kwSet := AddProfileTerms({}, topics);
    kwSet := AddProfileTerms(kwSet, theories);
  }

  // ---------------------------------------------------------------------------
  // Method compatibility
  // ---------------------------------------------------------------------------

  /** `method_matches`, with a missing paper method read as the empty string. */
  predicate MethodMatches(paperMethod: Option<string>, reviewerMethod: string)
  {
    var pm := Lower(if paperMethod.Some? then paperMethod.value else "");
    var rm := Lower(reviewerMethod);
    if Contains(rm, "mixed") then true
    else if Contains(rm, "quantitative") then pm in ["quantitative", "mixed"]
    else if Contains(rm, "qualitative") then pm in ["qualitative", "mixed", "conceptual"]
    else true
  }

  /** A reviewer is ruled out only as a pure quantitative or pure qualitative specialist. */
  lemma MethodMatchesExactly(paperMethod: Option<string>, reviewerMethod: string)
    ensures var pm := Lower(if paperMethod.Some? then paperMethod.value else "");
            var rm := Lower(reviewerMethod);
            !MethodMatches(paperMethod, reviewerMethod) <==>
              !Contains(rm, "mixed") &&
              ((Contains(rm, "quantitative") && pm != "quantitative" && pm != "mixed") ||
               (!Contains(rm, "quantitative") && Contains(rm, "qualitative") && pm != "qualitative" && pm != "mixed" && pm != "conceptual"))
  {
  }

  /** A Mixed paper is open to every reviewer. */
  lemma MixedPaperOpenToAll(paperMethod: string, reviewerMethod: string)
    requires Lower(paperMethod) == "mixed"
    ensures MethodMatches(Some(paperMethod), reviewerMethod)
  {
  }

  /** A Conceptual paper admits every reviewer except the quantitative specialists (their method names no "mixed"). */
  lemma ConceptualExcludesQuantitative(paperMethod: string, reviewerMethod: string)
    requires Lower(paperMethod) == "conceptual"
    ensures MethodMatches(Some(paperMethod), reviewerMethod) <==>
              Contains(Lower(reviewerMethod), "mixed") || !Contains(Lower(reviewerMethod), "quantitative")
  {
    assert "conceptual" != "quantitative" && "conceptual" != "mixed";
  }

  // ---------------------------------------------------------------------------
  // Parsing the language-model replies
  // ---------------------------------------------------------------------------

  /** The score of a pair reply: the first number after "SCORE:", or 40 when there is none. */
  function ParseScore(response: string): (score: int)
    ensures score >= 0
    ensures !Contains(Upper(response), "SCORE:") ==> score == 40
  {
    if Contains(Upper(response), "SCORE:") then
      match SearchScore(response)
      case Some(v) => v
      case None => 40
    else 40
  }

  /**
    The parsed score is the digit run of the leftmost "SCORE:" followed by
    whitespace and a digit, taken whole and not clamped.
   */
  lemma ParseScoreOf(response: string, i: nat)
    requires ScoreAt(response, i) && forall k :: 0 <= k < i ==> !ScoreAt(response, k)
    ensures ParseScore(response) == ScoreValue(response, i)
  {
    MatchHasMarker(response, i);
    SearchScoreOf(response, i);
  }

  /** The score is not clamped: a reply of "Score: 250" gives 250. */
  lemma ParseScoreUnclamped()
    ensures ParseScore("Score: 250") == 250
  {
    var s := "Score: 250";
    assert MarkerAt(s, 0);
    assert DigitsStart(s, 0) == 7;
    assert DigitRun(s, 7) == 3;
    assert s[7..10] == "250";
    assert DecimalValue("250") == 250 by {
      assert "250"[..2] == "25" && "25"[..1] == "2" && "2"[..0] == "";
    }
    ParseScoreOf(s, 0);
  }

  /** With the marker present but no digits after it, the score is still the default 40. */
  lemma ParseScoreNoMatch(response: string)
    requires forall k :: 0 <= k < |response| ==> !ScoreAt(response, k)
    ensures ParseScore(response) == 40
  {
  }

  /** The text the classifier falls back on: the first 1500 characters of the abstract, or the title. */
  function ClassifierText(abstractText: string, title: string): string
  {
    if abstractText != "" then Take(abstractText, 1500) else title
  }

  /** `any(w in text.lower() for w in [...])`: the fallback test for quantitative wording. */
  predicate SoundsQuantitative(text: string)
  {
    var t := Lower(text);
    Contains(t, "regression") || Contains(t, "data") || Contains(t, "sample") || Contains(t, "empirical")
  }

  /** `classify_method_llm` after the model call: method words in priority order, then the keyword fallback. */
  function ClassifyMethodLlm(response: string, abstractText: string, title: string): (m: string)
    ensures m in ["Quantitative", "Qualitative", "Conceptual", "Mixed"]
  {
    var r := Lower(Strip(response));
    if Contains(r, "quantitative") then "Quantitative"
    else if Contains(r, "qualitative") then "Qualitative"
    else if Contains(r, "conceptual") then "Conceptual"
    else if Contains(r, "mixed") then "Mixed"
    else if SoundsQuantitative(ClassifierText(abstractText, title)) then "Quantitative"
    else "Conceptual"
  }

  /** A word without whitespace occurs in the stripped, lower-cased reply exactly when it occurs in the lower-cased reply. */
  lemma StrippedReplyWord(response: string, w: string)
    requires w != [] && forall k :: 0 <= k < |w| ==> !IsSpace(w[k])
    ensures Contains(Lower(Strip(response)), w) <==> Contains(Lower(response), w)
  {
    LowerStrip(response);
    StripKeepsWords(Lower(response), w);
  }

  /**
    Stripping the reply is immaterial: the classification is decided by the
    method words of the lower-cased reply, quantitative before qualitative
    before conceptual before mixed, and without any by the fallback text.
   */
  lemma ClassifyMethodLlmOf(response: string, abstractText: string, title: string)
    ensures var r := Lower(response);
            var m := ClassifyMethodLlm(response, abstractText, title);
            && (m == "Quantitative" <==> (Contains(r, "quantitative") ||
                  (!Contains(r, "qualitative") && !Contains(r, "conceptual") && !Contains(r, "mixed")
                   && SoundsQuantitative(ClassifierText(abstractText, title)))))
            && (m == "Qualitative" <==> !Contains(r, "quantitative") && Contains(r, "qualitative"))
            && (m == "Mixed" <==> !Contains(r, "quantitative") && !Contains(r, "qualitative") && !Contains(r, "conceptual") && Contains(r, "mixed"))
  {
    StrippedReplyWord(response, "quantitative");
    StrippedReplyWord(response, "qualitative");
    StrippedReplyWord(response, "conceptual");
    StrippedReplyWord(response, "mixed");
  }

  // ---------------------------------------------------------------------------
  // Keyword candidates
  // ---------------------------------------------------------------------------

  /** `calculate_keyword_similarity`: overlap over the reviewer's set size, plus a bonus of 0.05 per shared term. */
  function KeywordSimilarity(paperKeywords: set<string>, reviewerKeywords: set<string>): (sim: real)
    ensures sim >= 0.0
    ensures sim == 0.0 <==> paperKeywords * reviewerKeywords == {}
  {
    if paperKeywords == {} || reviewerKeywords == {} then 0.0
    else
      var overlap := paperKeywords * reviewerKeywords;
      (|overlap| as real) / (|reviewerKeywords| as real) + (|overlap| as real) * 0.05
  }

  /** The method-compatible reviewers of a paper with their keyword similarity, in reviewer order. */
  function Candidates(p: Paper, reviewers: seq<Reviewer>): (c: seq<(string, real)>)
    ensures |c| <= |reviewers|
  {
    if reviewers == [] then []
    else
      var r := reviewers[|reviewers| - 1];
      Candidates(p, reviewers[..|reviewers| - 1])
        + (if MethodMatches(p.researchMethod, r.researchMethod) then [(r.id, KeywordSimilarity(p.keywords, r.keywords))] else [])
  }

  /** Every candidate is a method-compatible reviewer carrying its similarity. */
  lemma {:induction false} CandidatesFrom(p: Paper, reviewers: seq<Reviewer>, k: nat)
    requires k < |Candidates(p, reviewers)|
    ensures exists i :: 0 <= i < |reviewers| && Candidates(p, reviewers)[k] == (reviewers[i].id, KeywordSimilarity(p.keywords, reviewers[i].keywords))
                                           && MethodMatches(p.researchMethod, reviewers[i].researchMethod)
    decreases |reviewers|
  {
    var init := reviewers[..|reviewers| - 1];
    var c := Candidates(p, init);
    if k < |c| {
      CandidatesFrom(p, init, k);
      var i :| 0 <= i < |init| && c[k] == (init[i].id, KeywordSimilarity(p.keywords, init[i].keywords))
                                 && MethodMatches(p.researchMethod, init[i].researchMethod);
      assert init[i] == reviewers[i];
    } else {
      assert Candidates(p, reviewers)[k] == (reviewers[|reviewers| - 1].id, KeywordSimilarity(p.keywords, reviewers[|reviewers| - 1].keywords));
    }
  }

  /** Candidates by similarity, highest first, ties in reviewer order. */
  function RankedByKeywords(p: Paper, reviewers: seq<Reviewer>): seq<(string, real)>
  {
    var c := Candidates(p, reviewers);
    SortBy(c, Descending(Values(c)))
  }

  /** `candidates[:CANDIDATES_PER_PAPER]` after the sort. */
  function TopCandidates(p: Paper, reviewers: seq<Reviewer>): seq<(string, real)>
  {
    Take(RankedByKeywords(p, reviewers), CandidatesPerPaper)
  }

  /** Phase 2A for one paper: collect the compatible reviewers, sort by similarity, keep the first four. */
  method SelectCandidates(p: Paper, reviewers: seq<Reviewer>) returns (top: seq<(string, real)>)
    ensures top == TopCandidates(p, reviewers)
  {
    var candidates: seq<(string, real)> := [];
    var i := 0;
    while i < |reviewers|
      invariant i <= |reviewers|
      invariant candidates == Candidates(p, reviewers[..i])
    {
      assert reviewers[..i + 1][..i] == reviewers[..i] && reviewers[..i + 1][i] == reviewers[i];
      var r := reviewers[i];
      if MethodMatches(p.researchMethod, r.researchMethod) {
        var sim := KeywordSimilarity(p.keywords, r.keywords);
        candidates := candidates + [(r.id, sim)];
      }
      i := i + 1;
    }
    assert reviewers[..i] == reviewers;
    var sorted := SortBy(candidates, Descending(Values(candidates)));
    top := Take(sorted, CandidatesPerPaper);
  }

  /** `id` names a reviewer whose method is compatible with the paper's. */
  ghost predicate CompatibleReviewer(p: Paper, reviewers: seq<Reviewer>, id: string)
  {
    exists i :: 0 <= i < |reviewers| && id == reviewers[i].id && MethodMatches(p.researchMethod, reviewers[i].researchMethod)
  }

  /** A kept candidate is a method-compatible reviewer. */
  lemma TopCandidateFrom(p: Paper, reviewers: seq<Reviewer>, k: nat)
    requires k < |TopCandidates(p, reviewers)|
    ensures CompatibleReviewer(p, reviewers, TopCandidates(p, reviewers)[k].0)
  {
    var c := Candidates(p, reviewers);
    var order := StableOrder(Descending(Values(c)));
    assert TopCandidates(p, reviewers)[k] == RankedByKeywords(p, reviewers)[k] == c[order[k]];
    CandidatesFrom(p, reviewers, order[k]);
  }

  /** The pre-filter keeps at most four candidates, each a method-compatible reviewer. */
  lemma TopCandidatesEligible(p: Paper, reviewers: seq<Reviewer>)
    ensures |TopCandidates(p, reviewers)| <= CandidatesPerPaper
    ensures forall k :: 0 <= k < |TopCandidates(p, reviewers)| ==> CompatibleReviewer(p, reviewers, TopCandidates(p, reviewers)[k].0)
  {
    forall k | 0 <= k < |TopCandidates(p, reviewers)|
      ensures CompatibleReviewer(p, reviewers, TopCandidates(p, reviewers)[k].0)
    {
      TopCandidateFrom(p, reviewers, k);
    }
  }

  /**
    The ranking is a permutation of the candidates in non-increasing
    similarity, with equal similarities kept in reviewer order.
   */
  lemma RankedByKeywordsSorted(p: Paper, reviewers: seq<Reviewer>)
    ensures multiset(RankedByKeywords(p, reviewers)) == multiset(Candidates(p, reviewers))
    ensures forall a, b :: 0 <= a < b < |RankedByKeywords(p, reviewers)| ==>
              RankedByKeywords(p, reviewers)[b].1 <= RankedByKeywords(p, reviewers)[a].1
    ensures forall a, b :: 0 <= a < b < |RankedByKeywords(p, reviewers)| &&
              RankedByKeywords(p, reviewers)[a].1 == RankedByKeywords(p, reviewers)[b].1
              ==> StableOrder(Descending(Values(Candidates(p, reviewers))))[a] < StableOrder(Descending(Values(Candidates(p, reviewers))))[b]
  {
    var c := Candidates(p, reviewers);
    var keys := Descending(Values(c));
    var order := StableOrder(keys);
    var sorted := RankedByKeywords(p, reviewers);
    SortByPermutation(c, keys);
    StableOrderSorted(keys);
    forall a, b | 0 <= a < b < |sorted|
      ensures sorted[b].1 <= sorted[a].1
    {
      assert !KeyLess(keys[order[b]], keys[order[a]]);
    }
  }

  /** No candidate cut off by the pre-filter has a higher similarity than a kept one. */
  lemma TopCandidatesBest(p: Paper, reviewers: seq<Reviewer>)
    ensures forall a, b :: 0 <= a < |TopCandidates(p, reviewers)| <= b < |RankedByKeywords(p, reviewers)| ==>
              RankedByKeywords(p, reviewers)[b].1 <= TopCandidates(p, reviewers)[a].1
  {
    RankedByKeywordsSorted(p, reviewers);
  }

  // ---------------------------------------------------------------------------
  // Language-model scoring of the candidates
  // ---------------------------------------------------------------------------

  /** One entry of `all_scores`: a paper id, a reviewer id and the parsed score. */
  datatype Scored = Scored(paperId: string, reviewerId: string, score: int)

  /** The identifiers of the reviewer dictionary, in order (over this script's own `Reviewer` record). */
  function ReviewerIds(reviewers: seq<Reviewer>): (ids: seq<string>)
    ensures |ids| == |reviewers| && forall i :: 0 <= i < |reviewers| ==> ids[i] == reviewers[i].id
  {
    seq(|reviewers|, i requires 0 <= i < |reviewers| => reviewers[i].id)
  }

  /** The scored pairs of one paper, one per kept candidate, in candidate order. */
  function PaperTriples(p: Paper, top: seq<(string, real)>, reply: (string, string) -> string): (ts: seq<Scored>)
    ensures |ts| == |top|
    ensures forall k :: 0 <= k < |top| ==> ts[k] == Scored(p.id, top[k].0, ParseScore(reply(p.id, top[k].0)))
  {
    seq(|top|, k requires 0 <= k < |top| => Scored(p.id, top[k].0, ParseScore(reply(p.id, top[k].0))))
  }

  /** `all_scores` after phase 2: the scored candidates of every paper, papers in input order. */
  function AllScores(papers: seq<Paper>, reviewers: seq<Reviewer>, reply: (string, string) -> string): seq<Scored>
  {
    if papers == [] then []
    else
      var p := papers[|papers| - 1];
      AllScores(papers[..|papers| - 1], reviewers, reply) + PaperTriples(p, TopCandidates(p, reviewers), reply)
  }

  /** `scores_log[pid].get(rid, 0)` with `scores_log.get(pid, {})` for a missing paper. */
  function LoggedScore(log: map<string, map<string, int>>, pid: string, rid: string): int
  {
    if pid in log then Get(log[pid], rid) else 0
  }

  /** `scores_log[p.id][rid] = score` for every scored pair, in order. */
  function ScoresLog(ts: seq<Scored>): map<string, map<string, int>>
  {
    if ts == [] then map[]
    else
      LogScore(ScoresLog(ts[..|ts| - 1]), ts[|ts| - 1])
  }

  /** `scores_log[t.paperId][t.reviewerId] = t.score` on a `defaultdict(dict)`. */
  function LogScore(log: map<string, map<string, int>>, t: Scored): map<string, map<string, int>>
  {
    log[t.paperId := (if t.paperId in log then log[t.paperId] else map[])[t.reviewerId := t.score]]
  }

  lemma ScoresLogSnoc(ts: seq<Scored>, t: Scored)
    ensures ScoresLog(ts + [t]) == LogScore(ScoresLog(ts), t)
  {
    assert (ts + [t])[..|ts|] == ts;
  }

  lemma PaperTriplesSnoc(p: Paper, top: seq<(string, real)>, j: nat, reply: (string, string) -> string)
    requires j < |top|
    ensures PaperTriples(p, top[..j + 1], reply) == PaperTriples(p, top[..j], reply) + [Scored(p.id, top[j].0, ParseScore(reply(p.id, top[j].0)))]
  {
  }

  /** Reading the log after one write. */
  lemma LogScoreRead(log: map<string, map<string, int>>, t: Scored, pid: string, rid: string)
    ensures LoggedScore(LogScore(log, t), pid, rid) == if t.paperId == pid && t.reviewerId == rid then t.score else LoggedScore(log, pid, rid)
  {
  }

  /** A pair never scored reads as 0 in the log. */
  lemma {:induction false} ScoresLogUnscored(ts: seq<Scored>, pid: string, rid: string)
    requires forall k :: 0 <= k < |ts| ==> ts[k].paperId != pid || ts[k].reviewerId != rid
    ensures LoggedScore(ScoresLog(ts), pid, rid) == 0
    decreases |ts|
  {
    if ts != [] {
      ScoresLogUnscored(ts[..|ts| - 1], pid, rid);
      LogScoreRead(ScoresLog(ts[..|ts| - 1]), ts[|ts| - 1], pid, rid);
    }
  }

  /** A scored pair reads as the score of its last entry in `all_scores`. */
  lemma {:induction false} ScoresLogLast(ts: seq<Scored>, k: nat, pid: string, rid: string)
    requires k < |ts| && ts[k].paperId == pid && ts[k].reviewerId == rid
    requires forall j :: k < j < |ts| ==> ts[j].paperId != pid || ts[j].reviewerId != rid
    ensures LoggedScore(ScoresLog(ts), pid, rid) == ts[k].score
    decreases |ts|
  {
    var init := ts[..|ts| - 1];
    LogScoreRead(ScoresLog(init), ts[|ts| - 1], pid, rid);
    if k < |init| {
      ScoresLogLast(init, k, pid, rid);
    }
  }

  /** The scores of one paper's kept candidates, appended to `all_scores` and written to the log. */
  method ScorePaper(p: Paper, top: seq<(string, real)>, reply: (string, string) -> string,
                    allScores0: seq<Scored>, log0: map<string, map<string, int>>)
    returns (allScores: seq<Scored>, log: map<string, map<string, int>>)
    requires log0 == ScoresLog(allScores0)
    ensures allScores == allScores0 + PaperTriples(p, top, reply)
    ensures log == ScoresLog(allScores)
  {
    allScores, log := allScores0, log0;
    var j := 0;
    while j < |top|
      invariant j <= |top|
      invariant allScores == allScores0 + PaperTriples(p, top[..j], reply)
      invariant log == ScoresLog(allScores)
    {
      var rid := top[j].0;
      var score := ParseScore(reply(p.id, rid));
      var t := Scored(p.id, rid, score);
      ScoresLogSnoc(allScores, t);
      allScores := allScores + [t];
      log := LogScore(log, t);
      PaperTriplesSnoc(p, top, j, reply);
      j := j + 1;
    }
    assert top[..j] == top;
  }

  /** Phase 2: select and score the candidates of every paper, collecting `all_scores` and the log. */
  method ScorePapers(papers: seq<Paper>, reviewers: seq<Reviewer>, reply: (string, string) -> string)
    returns (allScores: seq<Scored>, log: map<string, map<string, int>>)
    ensures allScores == AllScores(papers, reviewers, reply)
    ensures log == ScoresLog(allScores)
  {
    allScores := [];
    log := map[];
    var i := 0;
    while i < |papers|
      invariant i <= |papers|
      invariant allScores == AllScores(papers[..i], reviewers, reply)
      invariant log == ScoresLog(allScores)
    {
      assert papers[..i + 1][..i] == papers[..i] && papers[..i + 1][i] == papers[i];
      var top := SelectCandidates(papers[i], reviewers);
      allScores, log := ScorePaper(papers[i], top, reply, allScores, log);
      i := i + 1;
    }
    assert papers[..i] == papers;
  }

  // ---------------------------------------------------------------------------
  // Global greedy assignment
  // ---------------------------------------------------------------------------

  /** Reviewers wanted per paper (`needed`). */
  const Needed: nat := 2

  /** `math.ceil(len(papers) * 2 / len(reviewers))`: the smallest share that covers two reviews per paper. */
  function AvgLoad(paperCount: nat, reviewerCount: nat): (n: nat)
    requires reviewerCount > 0
    ensures n * reviewerCount >= Needed * paperCount
    ensures n > 0 ==> (n - 1) * reviewerCount < Needed * paperCount
  {
    var total := Needed * paperCount + reviewerCount - 1;
    var q := total / reviewerCount;
    assert total == q * reviewerCount + total % reviewerCount;
    assert (q - 1) * reviewerCount == q * reviewerCount - reviewerCount;
    q
  }

  /** The two dictionaries of phase 3: `assignments` (paper to reviewer list) and `reviewer_load`. */
  datatype Ledger = Ledger(lists: map<string, seq<string>>, load: map<string, int>)

  /** A read of the `defaultdict(list)`. */
  function GetList(m: map<string, seq<string>>, k: string): seq<string>
  {
    if k in m then m[k] else []
  }

  /** The pair is committed: its paper still needs a reviewer and its reviewer is under `avg_load + 1`. */
  predicate Accepts(l: Ledger, t: Scored, avgLoad: int)
  {
    |GetList(l.lists, t.paperId)| < Needed && Get(l.load, t.reviewerId) < avgLoad + 1
  }

  /** One iteration of the phase-3 loop. */
  function Step(l: Ledger, t: Scored, avgLoad: int): Ledger
  {
    if Accepts(l, t, avgLoad) then
      Ledger(l.lists[t.paperId := GetList(l.lists, t.paperId) + [t.reviewerId]], Bump(l.load, t.reviewerId))
    else l
  }

  /** The ledger after visiting the pairs in order, from empty dictionaries. */
  function Greedy(ts: seq<Scored>, avgLoad: int): Ledger
  {
    if ts == [] then Ledger(map[], map[]) else Step(Greedy(ts[..|ts| - 1], avgLoad), ts[|ts| - 1], avgLoad)
  }

  /** The pairs the loop commits, in visiting order. */
  function Committed(ts: seq<Scored>, avgLoad: int): seq<Scored>
  {
    if ts == [] then []
    else
      var init := ts[..|ts| - 1];
      Committed(init, avgLoad) + (if Accepts(Greedy(init, avgLoad), ts[|ts| - 1], avgLoad) then [ts[|ts| - 1]] else [])
  }

  /** Reviewer ids of the committed pairs of one paper, in order. */
  function ReviewersOf(cs: seq<Scored>, pid: string): seq<string>
  {
    if cs == [] then []
    else ReviewersOf(cs[..|cs| - 1], pid) + (if cs[|cs| - 1].paperId == pid then [cs[|cs| - 1].reviewerId] else [])
  }

  /** Number of committed pairs of one reviewer. */
  function LoadOf(cs: seq<Scored>, rid: string): nat
  {
    if cs == [] then 0
    else LoadOf(cs[..|cs| - 1], rid) + (if cs[|cs| - 1].reviewerId == rid then 1 else 0)
  }

  /**
    The ledger is exactly the record of the committed pairs: each paper's
    list is its committed reviewers in order, and each load counts the
    reviewer's committed pairs.
   */
  lemma {:induction false} GreedyAccounting(ts: seq<Scored>, avgLoad: int)
    ensures forall pid :: GetList(Greedy(ts, avgLoad).lists, pid) == ReviewersOf(Committed(ts, avgLoad), pid)
    ensures forall rid :: Get(Greedy(ts, avgLoad).load, rid) == LoadOf(Committed(ts, avgLoad), rid)
    decreases |ts|
  {
    if ts != [] {
      var init := ts[..|ts| - 1];
      var t := ts[|ts| - 1];
      GreedyAccounting(init, avgLoad);
      var cs := Committed(init, avgLoad);
      if Accepts(Greedy(init, avgLoad), t, avgLoad) {
        var cs' := cs + [t];
        assert cs'[..|cs'| - 1] == cs;
        assert Committed(ts, avgLoad) == cs';
      } else {
        assert Committed(ts, avgLoad) == cs + [];
        assert cs + [] == cs;
      }
    }
  }

  /** No paper gets more than two reviewers and no reviewer more than `avg_load + 1` papers. */
  lemma {:induction false} GreedyBounded(ts: seq<Scored>, avgLoad: int)
    requires avgLoad >= 0
    ensures forall pid :: |GetList(Greedy(ts, avgLoad).lists, pid)| <= Needed
    ensures forall rid :: Get(Greedy(ts, avgLoad).load, rid) <= avgLoad + 1
    decreases |ts|
  {
    if ts != [] {
      var init := ts[..|ts| - 1];
      var t := ts[|ts| - 1];
      GreedyBounded(init, avgLoad);
      var l := Greedy(init, avgLoad);
      assert Greedy(ts, avgLoad) == Step(l, t, avgLoad);
      forall pid
        ensures |GetList(Greedy(ts, avgLoad).lists, pid)| <= Needed
      {
        if !Accepts(l, t, avgLoad) {
          assert Greedy(ts, avgLoad) == l;
        } else if pid == t.paperId {
          assert GetList(Greedy(ts, avgLoad).lists, pid) == GetList(l.lists, pid) + [t.reviewerId];
        } else {
          assert GetList(Greedy(ts, avgLoad).lists, pid) == GetList(l.lists, pid);
        }
      }
    }
  }

  /** Lists only grow and loads only rise as the loop goes on. */
  lemma {:induction false} GreedyGrows(ts: seq<Scored>, avgLoad: int, n: nat)
    requires n <= |ts|
    ensures forall pid :: |GetList(Greedy(ts[..n], avgLoad).lists, pid)| <= |GetList(Greedy(ts, avgLoad).lists, pid)|
    ensures forall rid :: Get(Greedy(ts[..n], avgLoad).load, rid) <= Get(Greedy(ts, avgLoad).load, rid)
    decreases |ts| - n
  {
    if n < |ts| {
      var init := ts[..|ts| - 1];
      assert init[..n] == ts[..n];
      GreedyGrows(init, avgLoad, n);
    } else {
      assert ts[..n] == ts;
    }
  }

  /**
    The greedy pass is maximal: a pair the loop skips has, in the final
    ledger, a paper with two reviewers or a reviewer at `avg_load + 1`.
   */
  lemma GreedyMaximal(ts: seq<Scored>, avgLoad: int, k: nat)
    requires avgLoad >= 0 && k < |ts|
    ensures Accepts(Greedy(ts[..k], avgLoad), ts[k], avgLoad)
            || |GetList(Greedy(ts, avgLoad).lists, ts[k].paperId)| == Needed
            || Get(Greedy(ts, avgLoad).load, ts[k].reviewerId) == avgLoad + 1
  {
    GreedyGrows(ts, avgLoad, k);
    GreedyBounded(ts, avgLoad);
  }

  /** The visiting order of phase 3: `all_scores` by score, highest first, ties in collection order. */
  function GlobalOrder(ts: seq<Scored>): seq<Scored>
  {
    SortBy(ts, Descending(seq(|ts|, i requires 0 <= i < |ts| => ts[i].score as real)))
  }

  /** The visiting order is a permutation of the scored pairs with non-increasing scores. */
  lemma GlobalOrderSorted(ts: seq<Scored>)
    ensures multiset(GlobalOrder(ts)) == multiset(ts)
    ensures forall a, b :: 0 <= a < b < |GlobalOrder(ts)| ==> GlobalOrder(ts)[b].score <= GlobalOrder(ts)[a].score
  {
    var keys := Descending(seq(|ts|, i requires 0 <= i < |ts| => ts[i].score as real));
    var order := StableOrder(keys);
    SortByPermutation(ts, keys);
    StableOrderSorted(keys);
    forall a, b | 0 <= a < b < |GlobalOrder(ts)|
      ensures GlobalOrder(ts)[b].score <= GlobalOrder(ts)[a].score
    {
      assert !KeyLess(keys[order[b]], keys[order[a]]);
    }
  }

  /** Phase 3: one pass over the sorted pairs with the two skip tests. */
  method GlobalAssign(allScores: seq<Scored>, avgLoad: int) returns (lists: map<string, seq<string>>, load: map<string, int>)
    ensures Ledger(lists, load) == Greedy(GlobalOrder(allScores), avgLoad)
  {
    var sorted := GlobalOrder(allScores);
    lists := map[];
    load := map[];
    var i := 0;
    while i < |sorted|
      invariant i <= |sorted|
      invariant Ledger(lists, load) == Greedy(sorted[..i], avgLoad)
    {
      assert sorted[..i + 1][..i] == sorted[..i] && sorted[..i + 1][i] == sorted[i];
      var t := sorted[i];
      i := i + 1;
      if |GetList(lists, t.paperId)| >= Needed {
        continue;
      }
      if Get(load, t.reviewerId) >= avgLoad + 1 {
        continue;
      }
      lists := lists[t.paperId := GetList(lists, t.paperId) + [t.reviewerId]];
      load := Bump(load, t.reviewerId);
    }
    assert sorted[..i] == sorted;
  }

  // ---------------------------------------------------------------------------
  // Output rows
  // ---------------------------------------------------------------------------

  /** One CSV row: paper id, title (60 characters), method, two reviewer names and their two scores. */
  datatype Row = Row(paperId: string, title: string, researchMethod: string, reviewer1: string, reviewer2: string, score1: int, score2: int)

  /** `{p.id: p for p in papers}`: one entry per distinct id, the last paper with that id winning. */
  function PaperMap(papers: seq<Paper>): (pm: seq<(string, Paper)>)
    ensures DistinctKeys(pm)
  {
    if papers == [] then [] else Put(PaperMap(papers[..|papers| - 1]), papers[|papers| - 1].id, papers[|papers| - 1])
  }

  /** Every entry of the paper map is keyed by its paper's id, and every id of the input has an entry. */
  lemma {:induction false} PaperMapKeys(papers: seq<Paper>)
    ensures forall e :: e in PaperMap(papers) ==> e.0 == e.1.id && e.1 in papers
    ensures forall id :: id in Keys(PaperMap(papers)) <==> exists i :: 0 <= i < |papers| && papers[i].id == id
    decreases |papers|
  {
    if papers != [] {
      var init := papers[..|papers| - 1];
      var p := papers[|papers| - 1];
      var pm := PaperMap(init);
      PaperMapKeys(init);
      PutKeys(pm, p.id, p);
      forall e | e in PaperMap(papers)
        ensures e.0 == e.1.id && e.1 in papers
      {
        var k :| 0 <= k < |PaperMap(papers)| && PaperMap(papers)[k] == e;
        if k < |pm| && pm[k].0 != p.id {
          assert e == pm[k] && pm[k] in pm;
          assert e.1 in init;
        }
      }
      forall id
        ensures id in Keys(PaperMap(papers)) <==> exists i :: 0 <= i < |papers| && papers[i].id == id
      {
        if exists i :: 0 <= i < |init| && init[i].id == id {
          var i :| 0 <= i < |init| && init[i].id == id;
          assert papers[i].id == id;
        }
        if exists i :: 0 <= i < |papers| && papers[i].id == id {
          var i :| 0 <= i < |papers| && papers[i].id == id;
          if i < |init| {
            assert init[i].id == id;
          }
        }
      }
    }
  }

  /** A paper id maps to the last paper carrying it. */
  lemma {:induction false} PaperMapLast(papers: seq<Paper>, k: nat)
    requires k < |papers| && forall j :: k < j < |papers| ==> papers[j].id != papers[k].id
    ensures Lookup(PaperMap(papers), papers[k].id) == Some(papers[k])
    decreases |papers|
  {
    var init := papers[..|papers| - 1];
    var q := papers[|papers| - 1];
    var p := papers[k];
    LookupPut(PaperMap(init), q.id, q, p.id);
    if k < |init| {
      assert init[k] == p;
      PaperMapLast(init, k);
    }
  }

  /** `reviewers[rid].name`. */
  function NameOf(reviewers: seq<Reviewer>, rid: string): (name: string)
    requires rid in ReviewerIds(reviewers)
    ensures exists i :: 0 <= i < |reviewers| && reviewers[i].id == rid && reviewers[i].name == name
  {
    if reviewers[0].id == rid then reviewers[0].name
    else
      assert ReviewerIds(reviewers) == [reviewers[0].id] + ReviewerIds(reviewers[1..]);
      var name := NameOf(reviewers[1..], rid);
      assert exists i :: 0 <= i < |reviewers[1..]| && reviewers[1..][i].id == rid && reviewers[1..][i].name == name;
      var i :| 0 <= i < |reviewers[1..]| && reviewers[1..][i].id == rid && reviewers[1..][i].name == name;
      assert reviewers[i + 1] == reviewers[1..][i];
      name
  }

  /** Every reviewer id on every assignment list is a key of the reviewer dictionary. */
  ghost predicate NamesKnown(lists: map<string, seq<string>>, reviewers: seq<Reviewer>)
  {
    forall pid, j :: pid in lists && 0 <= j < |lists[pid]| ==> lists[pid][j] in ReviewerIds(reviewers)
  }

  /** The method cell: the classified method, empty when there is none. */
  function MethodCell(m: Option<string>): string
  {
    if m.Some? then m.value else ""
  }

  /** The row of one paper: empty names and zero scores for the slots its list does not fill. */
  function OutputRow(pid: string, p: Paper, lists: map<string, seq<string>>, reviewers: seq<Reviewer>,
                     log: map<string, map<string, int>>): Row
    requires NamesKnown(lists, reviewers)
  {
    var revs := GetList(lists, pid);
    Row(pid, Take(p.title, 60), MethodCell(p.researchMethod),
        if |revs| > 0 then NameOf(reviewers, revs[0]) else "",
        if |revs| > 1 then NameOf(reviewers, revs[1]) else "",
        if |revs| > 0 then LoggedScore(log, pid, revs[0]) else 0,
        if |revs| > 1 then LoggedScore(log, pid, revs[1]) else 0)
  }

  /** The entries of the paper map in ascending id order. */
  function SortedPapers(papers: seq<Paper>): seq<(string, Paper)>
  {
    SortBy(PaperMap(papers), ByText(Keys(PaperMap(papers))))
  }

  /** The data rows of `save_output`, one per sorted paper id. */
  function OutputRows(lists: map<string, seq<string>>, papers: seq<Paper>, reviewers: seq<Reviewer>,
                      log: map<string, map<string, int>>): (rows: seq<Row>)
    requires NamesKnown(lists, reviewers)
    ensures |rows| == |SortedPapers(papers)|
  {
    var entries := SortedPapers(papers);
    seq(|entries|, k requires 0 <= k < |entries| => OutputRow(entries[k].0, entries[k].1, lists, reviewers, log))
  }

  /** `save_output` without the file: the loop over the sorted paper ids, one row each. */
  method SaveOutput(lists: map<string, seq<string>>, papers: seq<Paper>, reviewers: seq<Reviewer>,
                    log: map<string, map<string, int>>) returns (rows: seq<Row>)
    requires NamesKnown(lists, reviewers)
    ensures rows == OutputRows(lists, papers, reviewers, log)
  {
    var paperMap := PaperMap(papers);
    var entries := SortBy(paperMap, ByText(Keys(paperMap)));
    ghost var all := OutputRows(lists, papers, reviewers, log);
    rows := [];
    for k := 0 to |entries|
      invariant rows == all[..k]
    {
      var (pid, p) := entries[k];
      var row := OutputRow(pid, p, lists, reviewers, log);
      OutputRowsAt(lists, papers, reviewers, log, k);
      rows := rows + [row];
    }
  }

  lemma OutputRowsAt(lists: map<string, seq<string>>, papers: seq<Paper>, reviewers: seq<Reviewer>,
                     log: map<string, map<string, int>>, k: nat)
    requires NamesKnown(lists, reviewers) && k < |SortedPapers(papers)|
    ensures OutputRows(lists, papers, reviewers, log)[k]
         == OutputRow(SortedPapers(papers)[k].0, SortedPapers(papers)[k].1, lists, reviewers, log)
  {
  }

  /** The paper ids of the rows, in row order. */
  function RowIds(rows: seq<Row>): (ids: seq<string>)
    ensures |ids| == |rows| && forall k :: 0 <= k < |rows| ==> ids[k] == rows[k].paperId
  {
    seq(|rows|, k requires 0 <= k < |rows| => rows[k].paperId)
  }

  /** The ids of the input papers, in input order (over this script's own `Paper` record). */
  function PaperIds(papers: seq<Paper>): (ids: seq<string>)
    ensures |ids| == |papers| && forall i :: 0 <= i < |papers| ==> ids[i] == papers[i].id
  {
    seq(|papers|, i requires 0 <= i < |papers| => papers[i].id)
  }

  /** The rows are in strictly ascending paper-id order (so no id has two rows). */
  lemma OutputRowsAscending(lists: map<string, seq<string>>, papers: seq<Paper>, reviewers: seq<Reviewer>,
                            log: map<string, map<string, int>>)
    requires NamesKnown(lists, reviewers)
    ensures forall a, b :: 0 <= a < b < |OutputRows(lists, papers, reviewers, log)| ==>
              LexLess(OutputRows(lists, papers, reviewers, log)[a].paperId, OutputRows(lists, papers, reviewers, log)[b].paperId)
  {
    var pm := PaperMap(papers);
    var keys := ByText(Keys(pm));
    var order := StableOrder(keys);
    var rows := OutputRows(lists, papers, reviewers, log);
    StableOrderSorted(keys);
    SortedDistinct(keys, order);
    forall a, b | 0 <= a < b < |rows|
      ensures LexLess(rows[a].paperId, rows[b].paperId)
    {
      assert rows[a].paperId == pm[order[a]].0 && rows[b].paperId == pm[order[b]].0;
      assert !KeyLess(keys[order[b]], keys[order[a]]);
      LexTotal(pm[order[a]].0, pm[order[b]].0);
    }
  }

  lemma SortedPapersKeyFrom(papers: seq<Paper>, id: string)
    requires id in Keys(SortedPapers(papers))
    ensures id in PaperIds(papers)
  {
    var pm := PaperMap(papers);
    var entries := SortedPapers(papers);
    PaperMapKeys(papers);
    SortByMembers(pm, ByText(Keys(pm)));
    var k :| 0 <= k < |entries| && Keys(entries)[k] == id;
    assert entries[k] in entries;
    var n :| 0 <= n < |pm| && pm[n] == entries[k];
    assert Keys(pm)[n] == id;
    var i :| 0 <= i < |papers| && papers[i].id == id;
    assert PaperIds(papers)[i] == id;
  }

  lemma SortedPapersKeyTo(papers: seq<Paper>, id: string)
    requires id in PaperIds(papers)
    ensures id in Keys(SortedPapers(papers))
  {
    var pm := PaperMap(papers);
    var entries := SortedPapers(papers);
    PaperMapKeys(papers);
    SortByMembers(pm, ByText(Keys(pm)));
    var i :| 0 <= i < |papers| && PaperIds(papers)[i] == id;
    assert id in Keys(pm);
    var n :| 0 <= n < |pm| && Keys(pm)[n] == id;
    assert pm[n] in entries;
    var k :| 0 <= k < |entries| && entries[k] == pm[n];
    assert Keys(entries)[k] == id;
  }

  /** The sorted paper map holds exactly the ids of the input papers. */
  lemma SortedPapersKeys(papers: seq<Paper>)
    ensures forall id :: id in Keys(SortedPapers(papers)) <==> id in PaperIds(papers)
  {
    forall id
      ensures id in Keys(SortedPapers(papers)) <==> id in PaperIds(papers)
    {
      if id in Keys(SortedPapers(papers)) {
        SortedPapersKeyFrom(papers, id);
      }
      if id in PaperIds(papers) {
        SortedPapersKeyTo(papers, id);
      }
    }
  }

  /** Every paper id of the input has a row, and every row belongs to an input paper. */
  lemma OutputRowsCover(lists: map<string, seq<string>>, papers: seq<Paper>, reviewers: seq<Reviewer>,
                        log: map<string, map<string, int>>)
    requires NamesKnown(lists, reviewers)
    ensures forall id :: id in RowIds(OutputRows(lists, papers, reviewers, log)) <==> id in PaperIds(papers)
  {
    SortedPapersKeys(papers);
    assert RowIds(OutputRows(lists, papers, reviewers, log)) == Keys(SortedPapers(papers));
  }

  /** Each row shows the last input paper carrying its id. */
  lemma OutputRowsPaper(lists: map<string, seq<string>>, papers: seq<Paper>, reviewers: seq<Reviewer>,
                        log: map<string, map<string, int>>, k: nat)
    requires NamesKnown(lists, reviewers)
    requires k < |OutputRows(lists, papers, reviewers, log)|
    ensures exists e :: e in PaperMap(papers) && OutputRows(lists, papers, reviewers, log)[k] == OutputRow(e.0, e.1, lists, reviewers, log)
  {
    var entries := SortedPapers(papers);
    SortByMembers(PaperMap(papers), ByText(Keys(PaperMap(papers))));
    assert entries[k] in entries;
  }

  /**
    A row shows a reviewer's name and logged score exactly when the paper's
    list reaches that slot, and blanks and zeros otherwise.
   */
  lemma OutputRowSlots(pid: string, p: Paper, lists: map<string, seq<string>>, reviewers: seq<Reviewer>,
                       log: map<string, map<string, int>>)
    requires NamesKnown(lists, reviewers)
    ensures var row := OutputRow(pid, p, lists, reviewers, log);
            var revs := GetList(lists, pid);
            && row.paperId == pid
            && row.title == Take(p.title, 60)
            && (|revs| == 0 ==> row.reviewer1 == "" && row.score1 == 0)
            && (|revs| <= 1 ==> row.reviewer2 == "" && row.score2 == 0)
            && (|revs| > 0 ==> exists i :: 0 <= i < |reviewers| && reviewers[i].id == revs[0] && reviewers[i].name == row.reviewer1)
            && (|revs| > 1 ==> exists i :: 0 <= i < |reviewers| && reviewers[i].id == revs[1] && reviewers[i].name == row.reviewer2)
            && (|revs| > 0 ==> row.score1 == LoggedScore(log, pid, revs[0]))
            && (|revs| > 1 ==> row.score2 == LoggedScore(log, pid, revs[1]))
  {
  }

  // ---------------------------------------------------------------------------
  // The whole run
  // ---------------------------------------------------------------------------

  /** The pair (pid, rid) occurs among the scored pairs. */
  ghost predicate ScoredPair(ts: seq<Scored>, pid: string, rid: string)
  {
    exists k :: 0 <= k < |ts| && ts[k].paperId == pid && ts[k].reviewerId == rid
  }

  /** Every reviewer the greedy pass puts on a paper's list comes from a scored pair of that paper. */
  lemma {:induction false} GreedyFromPairs(ts: seq<Scored>, avgLoad: int)
    ensures forall pid, j :: pid in Greedy(ts, avgLoad).lists && 0 <= j < |Greedy(ts, avgLoad).lists[pid]| ==>
              ScoredPair(ts, pid, Greedy(ts, avgLoad).lists[pid][j])
    decreases |ts|
  {
    if ts != [] {
      var init := ts[..|ts| - 1];
      var t := ts[|ts| - 1];
      var l := Greedy(init, avgLoad);
      GreedyFromPairs(init, avgLoad);
      assert Greedy(ts, avgLoad) == Step(l, t, avgLoad);
      forall pid, j | pid in Greedy(ts, avgLoad).lists && 0 <= j < |Greedy(ts, avgLoad).lists[pid]|
        ensures ScoredPair(ts, pid, Greedy(ts, avgLoad).lists[pid][j])
      {
        var rid := Greedy(ts, avgLoad).lists[pid][j];
        if Accepts(l, t, avgLoad) && pid == t.paperId && j == |GetList(l.lists, pid)| {
          assert ts[|ts| - 1].paperId == pid && ts[|ts| - 1].reviewerId == rid;
        } else {
          assert pid in l.lists && rid == l.lists[pid][j];
          var k :| 0 <= k < |init| && init[k].paperId == pid && init[k].reviewerId == rid;
          assert ts[k] == init[k];
        }
      }
    }
  }

  /** rid is among the paper's four keyword candidates. */
  ghost predicate Kept(p: Paper, reviewers: seq<Reviewer>, rid: string)
  {
    exists k :: 0 <= k < |TopCandidates(p, reviewers)| && TopCandidates(p, reviewers)[k].0 == rid
  }

  /** The pair (pid, rid) was short-listed: some paper with id pid kept rid among its four keyword candidates. */
  ghost predicate ShortListed(papers: seq<Paper>, reviewers: seq<Reviewer>, pid: string, rid: string)
  {
    exists i :: 0 <= i < |papers| && papers[i].id == pid && Kept(papers[i], reviewers, rid)
  }

  /** Every scored pair is a short-listed one. */
  lemma {:induction false} AllScoresShortListed(papers: seq<Paper>, reviewers: seq<Reviewer>, reply: (string, string) -> string, n: nat)
    requires n < |AllScores(papers, reviewers, reply)|
    ensures ShortListed(papers, reviewers, AllScores(papers, reviewers, reply)[n].paperId, AllScores(papers, reviewers, reply)[n].reviewerId)
    decreases |papers|
  {
    var init := papers[..|papers| - 1];
    var p := papers[|papers| - 1];
    var before := AllScores(init, reviewers, reply);
    var last := PaperTriples(p, TopCandidates(p, reviewers), reply);
    assert AllScores(papers, reviewers, reply) == before + last;
    var t: Scored := (before + last)[n];
    ConcatAt(before, last, n);
    if n < |before| {
      AllScoresShortListed(init, reviewers, reply, n);
      var i :| 0 <= i < |init| && init[i].id == t.paperId && Kept(init[i], reviewers, t.reviewerId);
      assert papers[i] == init[i];
    } else {
      var k := n - |before|;
      assert Kept(p, reviewers, t.reviewerId);
      assert papers[|papers| - 1] == p;
    }
  }

  /** Phase 1: each paper's method becomes the classification of the model's reply for it. */
  method ClassifyPapers(papers: seq<Paper>, methodReply: string -> string) returns (classified: seq<Paper>)
    ensures |classified| == |papers|
    ensures forall i :: 0 <= i < |papers| ==>
              classified[i] == papers[i].(researchMethod := Some(ClassifyMethodLlm(methodReply(papers[i].id), papers[i].abstractText, papers[i].title)))
  {
    classified := [];
    var i := 0;
    while i < |papers|
      invariant i <= |papers| && |classified| == i
      invariant forall j :: 0 <= j < i ==>
                  classified[j] == papers[j].(researchMethod := Some(ClassifyMethodLlm(methodReply(papers[j].id), papers[j].abstractText, papers[j].title)))
    {
      var p := papers[i];
      var m := ClassifyMethodLlm(methodReply(p.id), p.abstractText, p.title);
      classified := classified + [p.(researchMethod := Some(m))];
      i := i + 1;
    }
  }

  /** Phase 3 on the scored pairs of classified papers. */
  function HybridAllocation(papers: seq<Paper>, reviewers: seq<Reviewer>, reply: (string, string) -> string): Ledger
    requires |reviewers| > 0
  {
    Greedy(GlobalOrder(AllScores(papers, reviewers, reply)), AvgLoad(|papers|, |reviewers|))
  }

  /** Sorting the scored pairs keeps every pair. */
  lemma GlobalOrderPairs(ts: seq<Scored>, pid: string, rid: string)
    requires ScoredPair(GlobalOrder(ts), pid, rid)
    ensures ScoredPair(ts, pid, rid)
  {
    var order := GlobalOrder(ts);
    GlobalOrderSorted(ts);
    var k :| 0 <= k < |order| && order[k].paperId == pid && order[k].reviewerId == rid;
    assert order[k] in multiset(ts);
    var n :| 0 <= n < |ts| && ts[n] == order[k];
  }

  /** A scored pair was short-listed, and its reviewer is in the reviewer dictionary. */
  lemma ScoredShortListed(papers: seq<Paper>, reviewers: seq<Reviewer>, reply: (string, string) -> string, pid: string, rid: string)
    requires ScoredPair(AllScores(papers, reviewers, reply), pid, rid)
    ensures ShortListed(papers, reviewers, pid, rid) && rid in ReviewerIds(reviewers)
  {
    var ts := AllScores(papers, reviewers, reply);
    var n :| 0 <= n < |ts| && ts[n].paperId == pid && ts[n].reviewerId == rid;
    AllScoresShortListed(papers, reviewers, reply, n);
    var i :| 0 <= i < |papers| && papers[i].id == pid && Kept(papers[i], reviewers, rid);
    var c :| 0 <= c < |TopCandidates(papers[i], reviewers)| && TopCandidates(papers[i], reviewers)[c].0 == rid;
    TopCandidateFrom(papers[i], reviewers, c);
    var r :| 0 <= r < |reviewers| && rid == reviewers[r].id && MethodMatches(papers[i].researchMethod, reviewers[r].researchMethod);
    assert ReviewerIds(reviewers)[r] == rid;
  }

  /**
    Every reviewer on a paper's list was one of that paper's four keyword
    candidates, hence method-compatible with it and named in the reviewer
    dictionary.
   */
  lemma HybridAssignedShortListed(papers: seq<Paper>, reviewers: seq<Reviewer>, reply: (string, string) -> string)
    requires |reviewers| > 0
    ensures forall pid, j :: pid in HybridAllocation(papers, reviewers, reply).lists && 0 <= j < |HybridAllocation(papers, reviewers, reply).lists[pid]| ==>
              ShortListed(papers, reviewers, pid, HybridAllocation(papers, reviewers, reply).lists[pid][j])
    ensures NamesKnown(HybridAllocation(papers, reviewers, reply).lists, reviewers)
  {
    var ts := AllScores(papers, reviewers, reply);
    var order := GlobalOrder(ts);
    var lists := HybridAllocation(papers, reviewers, reply).lists;
    GreedyFromPairs(order, AvgLoad(|papers|, |reviewers|));
    forall pid, j | pid in lists && 0 <= j < |lists[pid]|
      ensures ShortListed(papers, reviewers, pid, lists[pid][j]) && lists[pid][j] in ReviewerIds(reviewers)
    {
      GlobalOrderPairs(ts, pid, lists[pid][j]);
      ScoredShortListed(papers, reviewers, reply, pid, lists[pid][j]);
    }
  }

  // ---------------------------------------------------------------------------
  // No reviewer twice on one paper
  // ---------------------------------------------------------------------------

  /** No (paper, reviewer) pair occurs twice among the pairs. */
  ghost predicate PairsDistinct(ts: seq<Scored>)
  {
    forall a, b :: 0 <= a < b < |ts| ==> ts[a].paperId != ts[b].paperId || ts[a].reviewerId != ts[b].reviewerId
  }

  /** With distinct reviewer ids, no reviewer is a candidate twice. */
  lemma {:induction false} CandidateIdsDistinct(p: Paper, reviewers: seq<Reviewer>)
    requires Distinct(ReviewerIds(reviewers))
    ensures forall a, b :: 0 <= a < b < |Candidates(p, reviewers)| ==> Candidates(p, reviewers)[a].0 != Candidates(p, reviewers)[b].0
    decreases |reviewers|
  {
    if reviewers != [] {
      var n := |reviewers| - 1;
      var init := reviewers[..n];
      var c := Candidates(p, init);
      var all := Candidates(p, reviewers);
      assert Distinct(ReviewerIds(init)) by {
        forall a, b | 0 <= a < b < |init|
          ensures ReviewerIds(init)[a] != ReviewerIds(init)[b]
        {
          assert ReviewerIds(reviewers)[a] == init[a].id && ReviewerIds(reviewers)[b] == init[b].id;
        }
      }
      CandidateIdsDistinct(p, init);
      forall a, b | 0 <= a < b < |all|
        ensures all[a].0 != all[b].0
      {
        if b >= |c| {
          assert all[b].0 == reviewers[n].id;
          CandidatesFrom(p, init, a);
          var i :| 0 <= i < |init| && c[a] == (init[i].id, KeywordSimilarity(p.keywords, init[i].keywords))
                                     && MethodMatches(p.researchMethod, init[i].researchMethod);
          assert all[a] == c[a];
          assert ReviewerIds(reviewers)[i] == init[i].id && ReviewerIds(reviewers)[n] == reviewers[n].id;
        } else {
          assert all[a] == c[a] && all[b] == c[b];
        }
      }
    }
  }

  /** With distinct reviewer ids, a paper's kept candidates name different reviewers. */
  lemma TopIdsDistinct(p: Paper, reviewers: seq<Reviewer>)
    requires Distinct(ReviewerIds(reviewers))
    ensures forall a, b :: 0 <= a < b < |TopCandidates(p, reviewers)| ==> TopCandidates(p, reviewers)[a].0 != TopCandidates(p, reviewers)[b].0
  {
    var c := Candidates(p, reviewers);
    var keys := Descending(Values(c));
    var order := StableOrder(keys);
    var top := TopCandidates(p, reviewers);
    CandidateIdsDistinct(p, reviewers);
    StableOrderSorted(keys);
    SortedDistinct(keys, order);
    forall a, b | 0 <= a < b < |top|
      ensures top[a].0 != top[b].0
    {
      assert top[a] == RankedByKeywords(p, reviewers)[a] == c[order[a]];
      assert top[b] == RankedByKeywords(p, reviewers)[b] == c[order[b]];
      if order[a] > order[b] {
        assert c[order[b]].0 != c[order[a]].0;
      }
    }
  }

  /** With distinct paper ids and reviewer ids, phase 2 scores no pair twice. */
  lemma {:induction false} AllScoresDistinct(papers: seq<Paper>, reviewers: seq<Reviewer>, reply: (string, string) -> string)
    requires Distinct(PaperIds(papers)) && Distinct(ReviewerIds(reviewers))
    ensures PairsDistinct(AllScores(papers, reviewers, reply))
    decreases |papers|
  {
    if papers != [] {
      var n := |papers| - 1;
      var init := papers[..n];
      var p := papers[n];
      PaperIdsSnoc(papers);
      AllScoresDistinct(init, reviewers, reply);
      TopIdsDistinct(p, reviewers);
      TriplesDistinct(p, TopCandidates(p, reviewers), reply);
      AllScoresPapers(init, reviewers, reply);
      ConcatDistinct(AllScores(init, reviewers, reply), PaperTriples(p, TopCandidates(p, reviewers), reply), p.id);
    }
  }

  /** The last paper's id is new, and the other ids stay distinct. */
  lemma PaperIdsSnoc(papers: seq<Paper>)
    requires papers != [] && Distinct(PaperIds(papers))
    ensures Distinct(PaperIds(papers[..|papers| - 1]))
    ensures papers[|papers| - 1].id !in PaperIds(papers[..|papers| - 1])
  {
    var n := |papers| - 1;
    var init := papers[..n];
    forall a, b | 0 <= a < b < |init|
      ensures PaperIds(init)[a] != PaperIds(init)[b]
    {
      assert PaperIds(papers)[a] == init[a].id && PaperIds(papers)[b] == init[b].id;
    }
    forall i | 0 <= i < |init|
      ensures PaperIds(init)[i] != papers[n].id
    {
      assert PaperIds(papers)[i] == PaperIds(init)[i] && PaperIds(papers)[n] == papers[n].id;
    }
  }

  /** The pairs of one paper carry its id and name different reviewers when its candidates do. */
  lemma TriplesDistinct(p: Paper, top: seq<(string, real)>, reply: (string, string) -> string)
    requires forall a, b :: 0 <= a < b < |top| ==> top[a].0 != top[b].0
    ensures forall k :: 0 <= k < |PaperTriples(p, top, reply)| ==> PaperTriples(p, top, reply)[k].paperId == p.id
    ensures PairsDistinct(PaperTriples(p, top, reply))
  {
  }

  /** Every scored pair carries the id of one of the papers. */
  lemma AllScoresPapers(papers: seq<Paper>, reviewers: seq<Reviewer>, reply: (string, string) -> string)
    ensures forall a :: 0 <= a < |AllScores(papers, reviewers, reply)| ==> AllScores(papers, reviewers, reply)[a].paperId in PaperIds(papers)
  {
    var ts := AllScores(papers, reviewers, reply);
    forall a | 0 <= a < |ts|
      ensures ts[a].paperId in PaperIds(papers)
    {
      AllScoresShortListed(papers, reviewers, reply, a);
      var i :| 0 <= i < |papers| && papers[i].id == ts[a].paperId && Kept(papers[i], reviewers, ts[a].reviewerId);
      assert PaperIds(papers)[i] == papers[i].id;
    }
  }

  /** Appending the distinct pairs of a paper that has none yet keeps the pairs distinct. */
  lemma ConcatDistinct(before: seq<Scored>, last: seq<Scored>, pid: string)
    requires PairsDistinct(before) && PairsDistinct(last)
    requires forall k :: 0 <= k < |last| ==> last[k].paperId == pid
    requires forall a :: 0 <= a < |before| ==> before[a].paperId != pid
    ensures PairsDistinct(before + last)
  {
    var ts := before + last;
    forall a, b | 0 <= a < b < |ts|
      ensures ts[a].paperId != ts[b].paperId || ts[a].reviewerId != ts[b].reviewerId
    {
      if b < |before| {
        assert ts[a] == before[a] && ts[b] == before[b];
      } else if a >= |before| {
        assert ts[a] == last[a - |before|] && ts[b] == last[b - |before|];
      } else {
        assert ts[a] == before[a] && ts[b] == last[b - |before|];
      }
    }
  }

  /** Sorting the pairs keeps them distinct. */
  lemma GlobalOrderDistinct(ts: seq<Scored>)
    requires PairsDistinct(ts)
    ensures PairsDistinct(GlobalOrder(ts))
  {
    var keys := Descending(seq(|ts|, i requires 0 <= i < |ts| => ts[i].score as real));
    var order := StableOrder(keys);
    var g := GlobalOrder(ts);
    StableOrderSorted(keys);
    SortedDistinct(keys, order);
    forall a, b | 0 <= a < b < |g|
      ensures g[a].paperId != g[b].paperId || g[a].reviewerId != g[b].reviewerId
    {
      assert g[a] == ts[order[a]] && g[b] == ts[order[b]];
      if order[a] > order[b] {
        assert ts[order[b]].paperId != ts[order[a]].paperId || ts[order[b]].reviewerId != ts[order[a]].reviewerId;
      }
    }
  }

  /** Over pairs without repeats, the greedy pass lists no reviewer twice on a paper. */
  lemma {:induction false} GreedyDistinct(ts: seq<Scored>, avgLoad: int)
    requires PairsDistinct(ts)
    ensures forall pid :: Distinct(GetList(Greedy(ts, avgLoad).lists, pid))
    decreases |ts|
  {
    if ts != [] {
      var n := |ts| - 1;
      var init := ts[..n];
      var t := ts[n];
      var l := Greedy(init, avgLoad);
      assert PairsDistinct(init) by {
        forall a, b | 0 <= a < b < |init|
          ensures init[a].paperId != init[b].paperId || init[a].reviewerId != init[b].reviewerId
        {
          assert init[a] == ts[a] && init[b] == ts[b];
        }
      }
      GreedyDistinct(init, avgLoad);
      assert Greedy(ts, avgLoad) == Step(l, t, avgLoad);
      if Accepts(l, t, avgLoad) {
        var old_ := GetList(l.lists, t.paperId);
        GreedyFromPairs(init, avgLoad);
        forall j | 0 <= j < |old_|
          ensures old_[j] != t.reviewerId
        {
          assert t.paperId in l.lists && l.lists[t.paperId][j] == old_[j];
          var k :| 0 <= k < |init| && init[k].paperId == t.paperId && init[k].reviewerId == old_[j];
          assert ts[k] == init[k] && k < n;
        }
        forall pid
          ensures Distinct(GetList(Greedy(ts, avgLoad).lists, pid))
        {
          if pid == t.paperId {
            var nw := old_ + [t.reviewerId];
            assert GetList(Greedy(ts, avgLoad).lists, pid) == nw;
            forall a, b | 0 <= a < b < |nw|
              ensures nw[a] != nw[b]
            {
              assert nw[a] == old_[a];
            }
          } else {
            assert GetList(Greedy(ts, avgLoad).lists, pid) == GetList(l.lists, pid);
          }
        }
      }
    }
  }

  /**
    With distinct paper ids and reviewer ids, no paper's list names the same
    reviewer twice.
   */
  lemma HybridListsDistinct(papers: seq<Paper>, reviewers: seq<Reviewer>, reply: (string, string) -> string)
    requires |reviewers| > 0 && Distinct(PaperIds(papers)) && Distinct(ReviewerIds(reviewers))
    ensures forall pid :: Distinct(GetList(HybridAllocation(papers, reviewers, reply).lists, pid))
  {
    var ts := AllScores(papers, reviewers, reply);
    AllScoresDistinct(papers, reviewers, reply);
    GlobalOrderDistinct(ts);
    GreedyDistinct(GlobalOrder(ts), AvgLoad(|papers|, |reviewers|));
  }

  /**
    `main` after loading: classify, pre-filter and score, assign globally,
    and produce the output rows.
   */
  method HybridAssign(papers: seq<Paper>, reviewers: seq<Reviewer>, methodReply: string -> string, pairReply: (string, string) -> string)
    returns (rows: seq<Row>)
    requires |reviewers| > 0
    ensures exists classified: seq<Paper> ::
              && |classified| == |papers|
              && (forall i :: 0 <= i < |papers| ==>
                    classified[i] == papers[i].(researchMethod := Some(ClassifyMethodLlm(methodReply(papers[i].id), papers[i].abstractText, papers[i].title))))
              && NamesKnown(HybridAllocation(classified, reviewers, pairReply).lists, reviewers)
              && (Distinct(PaperIds(papers)) && Distinct(ReviewerIds(reviewers)) ==>
                    forall pid :: Distinct(GetList(HybridAllocation(classified, reviewers, pairReply).lists, pid)))
              && rows == OutputRows(HybridAllocation(classified, reviewers, pairReply).lists, classified, reviewers,
                                    ScoresLog(AllScores(classified, reviewers, pairReply)))
  {
    var classified := ClassifyPapers(papers, methodReply);
    var allScores, log := ScorePapers(classified, reviewers, pairReply);
    var avgLoad := AvgLoad(|classified|, |reviewers|);
    var lists, load := GlobalAssign(allScores, avgLoad);
    HybridAssignedShortListed(classified, reviewers, pairReply);
    assert PaperIds(classified) == PaperIds(papers);
    if Distinct(PaperIds(papers)) && Distinct(ReviewerIds(reviewers)) {
      HybridListsDistinct(classified, reviewers, pairReply);
    }
    rows := SaveOutput(lists, classified, reviewers, log);
  }
}
