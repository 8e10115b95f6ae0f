/**
  The pairwise allocation script (`assign_reviewers_pairwise.py`): papers are
  classified by counting method words, every reviewer that matches a paper's
  method and has room is scored against it by one model reply, and the two
  best-scored reviewers are committed; the scores are logged by reviewer
  name for the output rows.
 */
module AssignReviewersPairwise {
  import opened Common
  import opened Text
  import opened Sorting
  import opened Patterns
  import opened PerPaper
  import V2 = AssignReviewersV2

  /** A paper: the CSV fields and the classified method. */
  datatype Paper = Paper(id: string, title: string, abstractText: string, keywordsField: string,
                         researchMethod: Option<string>)

  // ---------------------------------------------------------------------------
  // The expertise string
  // ---------------------------------------------------------------------------

  /**
    One step of the part loop: a `method:` part sets the method to the rest
    of the part, stripped; otherwise a `keywords:` part sets the keywords to
    the non-blank comma fields of the rest, each stripped.
   */
  function PartStep(acc: (string, seq<string>), part0: string): (string, seq<string>)
  {
    var part := Strip(part0);
    if V2.IsMethodPart(part) then (Strip(Drop(part, 7)), acc.1)
    else if V2.IsKeywordsPart(part) then (acc.0, CleanFields(Split(Drop(part, 9), ',')))
    else acc
  }

  /** The method and keywords the part loop ends with, starting from "Mixed" and none. */
  function Parts(parts: seq<string>): (string, seq<string>)
  {
    if parts == [] then ("Mixed", [])
    else PartStep(Parts(parts[..|parts| - 1]), parts[|parts| - 1])
  }

  /** `parse_expertise`: the method and keyword list of an expertise string. */
  function Expertise(expertise: string): (string, seq<string>)
  {
    if '|' in expertise then Parts(Split(expertise, '|'))
    else ("Mixed", CleanFields(Split(expertise, ',')))
  }

  /** `parse_expertise`, with its loop over the `|`-separated parts. */
  method ParseExpertise(expertise: string) returns (researchMethod: string, keywords: seq<string>)
    ensures (researchMethod, keywords) == Expertise(expertise)
  {
    researchMethod := "Mixed";
    keywords := [];
    if '|' in expertise {
      var parts := Split(expertise, '|');
      for i := 0 to |parts|
        invariant (researchMethod, keywords) == Parts(parts[..i])
      {
        assert parts[..i + 1][..i] == parts[..i];
        var part := Strip(parts[i]);
        if V2.IsMethodPart(part) {
          researchMethod := Strip(Drop(part, 7));
        } else if V2.IsKeywordsPart(part) {
          keywords := CleanFields(Split(Drop(part, 9), ','));
        }
      }
      assert parts[..|parts|] == parts;
    } else {
      keywords := CleanFields(Split(expertise, ','));
    }
  }

  /** The part loop finds the same method as the keyword script's part loop. */
  lemma {:induction false} PartsMethodAsV2(parts: seq<string>)
    ensures Parts(parts).0 == V2.Parts(parts).0
    decreases |parts|
  {
    if parts != [] {
      PartsMethodAsV2(parts[..|parts| - 1]);
    }
  }

  /** The last `method:` part decides the method. */
  lemma LastMethodPartWins(parts: seq<string>, j: nat)
    requires j < |parts| && V2.IsMethodPart(Strip(parts[j]))
    requires forall i :: j < i < |parts| ==> !V2.IsMethodPart(Strip(parts[i]))
    ensures Parts(parts).0 == Strip(Drop(Strip(parts[j]), 7))
  {
    PartsMethodAsV2(parts);
    V2.LastMethodPartWins(parts, j);
  }

  /** Without a `method:` part the method stays "Mixed". */
  lemma NoMethodPartMixed(parts: seq<string>)
    requires forall i :: 0 <= i < |parts| ==> !V2.IsMethodPart(Strip(parts[i]))
    ensures Parts(parts).0 == "Mixed"
  {
    PartsMethodAsV2(parts);
    V2.NoMethodPartMixed(parts);
  }

  lemma {:induction false} PartsKeywordsClean(parts: seq<string>, k: string)
    requires k in Parts(parts).1
    ensures k != "" && Strip(k) == k
    decreases |parts|
  {
    var part := Strip(parts[|parts| - 1]);
    if !V2.IsMethodPart(part) && V2.IsKeywordsPart(part) && k in CleanFields(Split(Drop(part, 9), ',')) {
      CleanFieldsFrom(Split(Drop(part, 9), ','), k);
    } else {
      PartsKeywordsClean(parts[..|parts| - 1], k);
    }
  }

  /**
    No parsed keyword is empty or carries outer whitespace, and without `|`
    the method is "Mixed".
   */
  lemma ExpertiseFacts(expertise: string)
    ensures forall k :: k in Expertise(expertise).1 ==> k != "" && Strip(k) == k
    ensures '|' !in expertise ==> Expertise(expertise).0 == "Mixed"
  {
    forall k | k in Expertise(expertise).1
      ensures k != "" && Strip(k) == k
    {
      if '|' in expertise {
        PartsKeywordsClean(Split(expertise, '|'), k);
      } else {
        CleanFieldsFrom(Split(expertise, ','), k);
      }
    }
  }

  // ---------------------------------------------------------------------------
  // Reviewer records
  // ---------------------------------------------------------------------------

  /** A stored reviewer record; each field may be missing. */
  datatype Record = Record(name: Option<string>, email: Option<string>, expertise: Option<string>, maxPapers: Option<int>)

  /** An entry of the fallback expertise table. */
  datatype Fallback = Fallback(researchMethod: string, keywords: seq<string>)

  /** A reviewer: its record key, name, e-mail, method label, keyword list and paper limit (0 for none). */
  datatype Reviewer = Reviewer(id: string, name: string, email: string, researchMethod: string,
                               keywords: seq<string>, maxPapers: int)

  /**
    Where a reviewer's method and keywords come from: a non-empty expertise
    string, else the fallback entry of the name, else "Mixed" and none.
   */
  function ReviewerSource(name: string, expertise: string, fallbacks: map<string, Fallback>): (string, seq<string>)
  {
    if expertise != "" then Expertise(expertise)
    else if name in fallbacks then (fallbacks[name].researchMethod, fallbacks[name].keywords)
    else ("Mixed", [])
  }

  /** `Reviewer.from_firebase`: the reviewer a stored record describes. */
  function FromFirebase(rid: string, data: Record, fallbacks: map<string, Fallback>): Reviewer
  {
    var name := OrElse(data.name, "Unknown");
    var source := ReviewerSource(name, OrElse(data.expertise, ""), fallbacks);
    Reviewer(rid, name, OrElse(data.email, ""), source.0, source.1, OrElse(data.maxPapers, 0))
  }

  /**
    The sources in order: a non-empty expertise string is parsed and its
    keywords are never blank, whatever the fallback table holds; without one
    a known name takes its fallback entry, and an unknown one gets "Mixed"
    and no keywords; a record without a limit has none (0).
   */
  lemma FromFirebaseSources(rid: string, data: Record, fallbacks: map<string, Fallback>)
    ensures var r := FromFirebase(rid, data, fallbacks);
            var expertise := OrElse(data.expertise, "");
            && r.id == rid
            && (data.maxPapers.None? ==> r.maxPapers == 0)
            && (expertise != "" ==> (r.researchMethod, r.keywords) == Expertise(expertise) && r == FromFirebase(rid, data, map[]))
            && (expertise != "" ==> forall k :: k in r.keywords ==> k != "" && Strip(k) == k)
            && (expertise == "" && r.name in fallbacks ==> r.researchMethod == fallbacks[r.name].researchMethod && r.keywords == fallbacks[r.name].keywords)
            && (expertise == "" && r.name !in fallbacks ==> r.researchMethod == "Mixed" && r.keywords == [])
  {
    ExpertiseFacts(OrElse(data.expertise, ""));
  }

  // ---------------------------------------------------------------------------
  // The score reply
  // ---------------------------------------------------------------------------

  /** `min(100, max(0, n))`. */
  function Clamp(n: int): (c: int)
    ensures 0 <= c <= 100
    ensures 0 <= n <= 100 ==> c == n
  {
    if n > 100 then 100 else if n < 0 then 0 else n
  }

  /**
    The score of `score_paper_reviewer_pair`: 0 unless the reply contains
    "SCORE:" in upper case and the pattern `SCORE:\s*(\d+)` matches, the
    captured number clamped to 0..100 otherwise.
   */
  function ParseScore(response: string): (score: int)
    ensures 0 <= score <= 100
  {
    if Contains(Upper(response), "SCORE:") then
      match SearchScore(response)
      case Some(v) => Clamp(v)
      case None => 0
    else 0
  }

  /** The score stays 0 without the marker, and without any match of the pattern. */
  lemma ParseScoreDefaults(response: string)
    ensures !Contains(Upper(response), "SCORE:") ==> ParseScore(response) == 0
    ensures (forall k :: 0 <= k < |response| ==> !ScoreAt(response, k)) ==> ParseScore(response) == 0
  {
  }

  /** The score is the leftmost match's number, clamped to at most 100. */
  lemma ParseScoreOf(response: string, i: nat)
    requires ScoreAt(response, i) && forall k :: 0 <= k < i ==> !ScoreAt(response, k)
    ensures ParseScore(response) == if ScoreValue(response, i) > 100 then 100 else ScoreValue(response, i)
  {
    MatchHasMarker(response, i);
    SearchScoreOf(response, i);
  }

  /** The score is clamped: a reply of "Score: 250" gives 100. */
  lemma ParseScoreClamped()
    ensures ParseScore("Score: 250") == 100
  {
    var s := "Score: 250";
    assert MarkerAt(s, 0);
    assert DigitsStart(s, 0) == 7;
    assert DigitRun(s, 7) == 3;
    assert s[7..10] == "250";
    assert DecimalValue("250") == 250 by {
      assert "250"[..2] == "25" && "25"[..1] == "2" && "2"[..0] == "";
    }
    ParseScoreOf(s, 0);
  }

  // ---------------------------------------------------------------------------
  // Eligibility
  // ---------------------------------------------------------------------------

  /** `method_matches`: a missing label reads as empty; both are compared lower-cased, by substring. */
  predicate MethodMatches(paperMethod: Option<string>, reviewerMethod: Option<string>)
  {
    var pm := Lower(OrElse(paperMethod, ""));
    var rm := Lower(OrElse(reviewerMethod, ""));
    if Contains(rm, "mixed") then true
    else if pm == "qualitative" then Contains(rm, "qualitative") || Contains(rm, "mixed")
    else if pm == "quantitative" then Contains(rm, "quantitative") || Contains(rm, "mixed")
    else true
  }

  /** On present labels the test is the keyword script's `method_matches`. */
  lemma MethodMatchesAsV2(paperMethod: Option<string>, reviewerMethod: Option<string>)
    ensures MethodMatches(paperMethod, reviewerMethod) == V2.MethodMatches(OrElse(paperMethod, ""), OrElse(reviewerMethod, ""))
  {
  }

  /**
    A paper whose label is neither qualitative nor quantitative, a missing
    one included, takes every reviewer, a reviewer without a label included;
    a reviewer without a label takes no qualitative or quantitative paper.
   */
  lemma MethodMatchesLenient(paperMethod: Option<string>, reviewerMethod: Option<string>)
    ensures Lower(OrElse(paperMethod, "")) != "qualitative" && Lower(OrElse(paperMethod, "")) != "quantitative" ==>
              MethodMatches(paperMethod, reviewerMethod)
    ensures MethodMatches(None, reviewerMethod)
    ensures reviewerMethod.None? && (Lower(OrElse(paperMethod, "")) == "qualitative" || Lower(OrElse(paperMethod, "")) == "quantitative") ==>
              !MethodMatches(paperMethod, reviewerMethod)
  {
    assert Lower("") == "";
    if reviewerMethod.None? {
      assert !At("", 0, "mixed");
      assert !At("", 0, "qualitative");
      assert !At("", 0, "quantitative");
    }
  }

  // ---------------------------------------------------------------------------
  // Method classification by counting method words
  // ---------------------------------------------------------------------------

  /** The quantitative method words of `classify_method_simple`. */
  const QuantWords: seq<string> := ["regression", "econometric", "statistical", "empirical",
                                    "quantitative", "panel data", "survey", "sample", "dataset"]

  /** The qualitative method words of `classify_method_simple`. */
  const QualWords: seq<string> := ["case study", "interview", "ethnograph", "qualitative", "grounded theory"]

  /** The text searched: title, abstract and keyword field, space-separated and lower-cased. */
  function ClassifierText(p: Paper): string
  {
    Lower(p.title + " " + p.abstractText + " " + p.keywordsField)
  }

  /** The label the two word counts give. */
  function LabelOf(quant: nat, qual: nat): string
  {
    if quant > 2 && quant > qual then "Quantitative"
    else if qual > 1 then "Qualitative"
    else if quant > 0 && qual > 0 then "Mixed"
    else "Conceptual"
  }

  /** `classify_method_simple` of this script; v2 has its own, whose `LabelOf` also compares the counts for Qualitative. */
  function ClassifyMethodSimple(p: Paper): (m: string)
    ensures m in {"Quantitative", "Qualitative", "Mixed", "Conceptual"}
  {
    var text := ClassifierText(p);
    LabelOf(CountHits(QuantWords, text), CountHits(QualWords, text))
  }

  /**
    The labels in terms of the two counts: Quantitative exactly when more
    than two quantitative words occur and they outnumber the qualitative
    ones; otherwise Qualitative exactly when more than one qualitative word
    occurs, with no comparison against the quantitative count; otherwise Mixed
    exactly when both kinds occur; otherwise Conceptual.
   */
  lemma ClassifyLabels(p: Paper)
    ensures var quant := CountHits(QuantWords, ClassifierText(p));
            var qual := CountHits(QualWords, ClassifierText(p));
            var m := ClassifyMethodSimple(p);
            && (m == "Quantitative" <==> quant > 2 && quant > qual)
            && (m == "Qualitative" <==> !(quant > 2 && quant > qual) && qual > 1)
            && (m == "Mixed" <==> !(quant > 2 && quant > qual) && qual <= 1 && quant > 0 && qual > 0)
            && (m == "Conceptual" <==> !(quant > 2 && quant > qual) && qual <= 1 && !(quant > 0 && qual > 0))
  {
  }

  /**
    Qualitative wins every tie of two or more words of each kind, which the
    keyword script labels Mixed; it never wins against more quantitative
    words, since those would have fired the first branch.
   */
  lemma QualitativeTakesTies(n: nat)
    requires n >= 2
    ensures LabelOf(n, n) == "Qualitative" && V2.LabelOf(n, n) == "Mixed"
    ensures forall quant: nat, qual: nat :: LabelOf(quant, qual) == "Qualitative" ==> quant <= qual
  {
  }

  /** Phase 1: each paper's method becomes its classification. */
  method ClassifyPapers(papers: seq<Paper>) returns (classified: seq<Paper>)
    ensures classified == Classified(papers)
  {
    classified := [];
    for k := 0 to |papers|
      invariant classified == Classified(papers[..k])
    {
      assert papers[..k + 1][..k] == papers[..k];
      var paper := papers[k];
      classified := classified + [paper.(researchMethod := Some(ClassifyMethodSimple(paper)))];
    }
    assert papers[..|papers|] == papers;
  }

  /** The papers after phase 1: each one's method replaced by its classification. */
  function Classified(papers: seq<Paper>): (r: seq<Paper>)
  {
    if papers == [] then []
    else
      var p := papers[|papers| - 1];
      Classified(papers[..|papers| - 1]) + [p.(researchMethod := Some(ClassifyMethodSimple(p)))]
  }

  /** Classification keeps every paper in place and gives each one of the four labels. */
  lemma {:induction false} ClassifiedFacts(papers: seq<Paper>)
    ensures |Classified(papers)| == |papers|
    ensures forall k :: 0 <= k < |papers| ==>
              Classified(papers)[k] == papers[k].(researchMethod := Some(ClassifyMethodSimple(papers[k])))
    decreases |papers|
  {
    if papers != [] {
      var init := papers[..|papers| - 1];
      ClassifiedFacts(init);
      forall k | 0 <= k < |init|
        ensures Classified(papers)[k] == papers[k].(researchMethod := Some(ClassifyMethodSimple(papers[k])))
      {
        assert Classified(papers)[k] == Classified(init)[k];
        assert init[k] == papers[k];
      }
    }
  }

  // ---------------------------------------------------------------------------
  // Available reviewers and their scores
  // ---------------------------------------------------------------------------

  /** The record keys of the reviewers, in dictionary order (over this script's own `Reviewer` record). */
  function ReviewerIds(reviewers: seq<Reviewer>): (ids: seq<string>)
    ensures |ids| == |reviewers| && forall i :: 0 <= i < |reviewers| ==> ids[i] == reviewers[i].id
  {
    seq(|reviewers|, i requires 0 <= i < |reviewers| => reviewers[i].id)
  }

  /** The reviewer can take another paper: it has no limit, or its load is below the limit. */
  predicate HasRoom(r: Reviewer, load: map<string, int>)
  {
    !(r.maxPapers > 0 && Get(load, r.id) >= r.maxPapers)
  }

  /** The two tests of the `available` loop. */
  predicate IsAvailable(p: Paper, r: Reviewer, load: map<string, int>)
  {
    MethodMatches(p.researchMethod, Some(r.researchMethod)) && HasRoom(r, load)
  }

  /** The `(rid, reviewer)` pairs that pass both tests, in dictionary order. */
  function Available(p: Paper, reviewers: seq<Reviewer>, load: map<string, int>): seq<Reviewer>
  {
    if reviewers == [] then []
    else
      var r := reviewers[|reviewers| - 1];
      Available(p, reviewers[..|reviewers| - 1], load) + (if IsAvailable(p, r, load) then [r] else [])
  }

  /** The `available` loop, with its two `continue`s. */
  method GetAvailable(p: Paper, reviewers: seq<Reviewer>, load: map<string, int>) returns (available: seq<Reviewer>)
    ensures available == Available(p, reviewers, load)
  {
    available := [];
    for i := 0 to |reviewers|
      invariant available == Available(p, reviewers[..i], load)
    {
      assert reviewers[..i + 1][..i] == reviewers[..i];
      var reviewer := reviewers[i];
      if !MethodMatches(p.researchMethod, Some(reviewer.researchMethod)) {
        continue;
      }
      if reviewer.maxPapers > 0 && Get(load, reviewer.id) >= reviewer.maxPapers {
        continue;
      }
      available := available + [reviewer];
    }
    assert reviewers[..|reviewers|] == reviewers;
  }

  /** A reviewer is available exactly when it is stored, matches the paper's method and has room. */
  lemma {:induction false} AvailableMembers(p: Paper, reviewers: seq<Reviewer>, load: map<string, int>, r: Reviewer)
    ensures r in Available(p, reviewers, load) <==> r in reviewers && IsAvailable(p, r, load)
    decreases |reviewers|
  {
    if reviewers != [] {
      var init := reviewers[..|reviewers| - 1];
      AvailableMembers(p, init, load, r);
      assert reviewers == init + [reviewers[|reviewers| - 1]];
    }
  }

  /** With distinct reviewer keys, the available reviewers have distinct keys too. */
  lemma {:induction false} AvailableDistinct(p: Paper, reviewers: seq<Reviewer>, load: map<string, int>)
    requires Distinct(ReviewerIds(reviewers))
    ensures Distinct(ReviewerIds(Available(p, reviewers, load)))
    decreases |reviewers|
  {
    if reviewers != [] {
      var init := reviewers[..|reviewers| - 1];
      var r := reviewers[|reviewers| - 1];
      var ids := ReviewerIds(reviewers);
      assert ReviewerIds(init) == ids[..|init|];
      DistinctSnoc(ids);
      AvailableDistinct(p, init, load);
      var prev := Available(p, init, load);
      if IsAvailable(p, r, load) {
        forall k | 0 <= k < |prev|
          ensures prev[k].id != r.id
        {
          assert prev[k] in prev;
          AvailableMembers(p, init, load, prev[k]);
          var i :| 0 <= i < |init| && init[i] == prev[k];
          assert ids[..|init|][i] == prev[k].id;
        }
        var next := Available(p, reviewers, load);
        assert next == prev + [r];
        forall a, b | 0 <= a < b < |next|
          ensures ReviewerIds(next)[a] != ReviewerIds(next)[b]
        {
          if b < |prev| {
            assert ReviewerIds(prev)[a] != ReviewerIds(prev)[b];
          }
        }
      }
    }
  }

  /**
    `pair_scores`: each available reviewer's parsed reply, keyed by its
    record key, in order. `reply(p, r)` stands for the model's answer to the
    pairwise prompt about paper `p` and reviewer `r`.
   */
  function PairScores(p: Paper, available: seq<Reviewer>, reply: (Paper, Reviewer) -> string): (scores: seq<(string, int)>)
    ensures DistinctKeys(scores)
  {
    if available == [] then []
    else
      var r := available[|available| - 1];
      Put(PairScores(p, available[..|available| - 1], reply), r.id, ParseScore(reply(p, r)))
  }

  /**
    `{reviewers[rid].name: s for rid, s in pair_scores.items()}`: with
    distinct keys the score dictionary holds one entry per available
    reviewer, in order, so the comprehension visits the available reviewers
    in order and files each score under the reviewer's name.
   */
  function NameScores(p: Paper, available: seq<Reviewer>, reply: (Paper, Reviewer) -> string): (scores: seq<(string, int)>)
    ensures DistinctKeys(scores)
  {
    if available == [] then []
    else
      var r := available[|available| - 1];
      Put(NameScores(p, available[..|available| - 1], reply), r.name, ParseScore(reply(p, r)))
  }

  /** A reviewer whose key is new is filed at the end of the score dictionary. */
  lemma PairScoresSnoc(p: Paper, available: seq<Reviewer>, reply: (Paper, Reviewer) -> string)
    requires available != []
    requires available[|available| - 1].id !in Keys(PairScores(p, available[..|available| - 1], reply))
    ensures PairScores(p, available, reply)
            == PairScores(p, available[..|available| - 1], reply) + [(available[|available| - 1].id, ParseScore(reply(p, available[|available| - 1])))]
  {
  }

  /** For distinct keys the score dictionary holds one entry per available reviewer, in order, each its parsed reply. */
  lemma {:induction false} PairScoresFresh(p: Paper, available: seq<Reviewer>, reply: (Paper, Reviewer) -> string)
    requires Distinct(ReviewerIds(available))
    ensures |PairScores(p, available, reply)| == |available|
    ensures forall k :: 0 <= k < |available| ==> PairScores(p, available, reply)[k] == (available[k].id, ParseScore(reply(p, available[k])))
    decreases |available|
  {
    if available != [] {
      var init := available[..|available| - 1];
      var r := available[|available| - 1];
      var ids := ReviewerIds(available);
      assert ReviewerIds(init) == ids[..|init|];
      DistinctSnoc(ids);
      var prev := PairScores(p, init, reply);
      PairScoresFresh(p, init, reply);
      assert r.id !in Keys(prev) by {
        forall k | 0 <= k < |prev|
          ensures Keys(prev)[k] != r.id
        {
          assert Keys(prev)[k] == ids[..|init|][k];
        }
      }
      PairScoresSnoc(p, available, reply);
      forall k | 0 <= k < |available|
        ensures PairScores(p, available, reply)[k] == (available[k].id, ParseScore(reply(p, available[k])))
      {
        if k < |init| {
          assert available[k] == init[k];
        }
      }
    }
  }

  /** The names of the reviewers, in order. */
  function ReviewerNames(reviewers: seq<Reviewer>): (names: seq<string>)
    ensures |names| == |reviewers| && forall i :: 0 <= i < |reviewers| ==> names[i] == reviewers[i].name
  {
    seq(|reviewers|, i requires 0 <= i < |reviewers| => reviewers[i].name)
  }

  lemma ReviewerNamesSnoc(reviewers: seq<Reviewer>)
    requires reviewers != []
    ensures forall n :: n in ReviewerNames(reviewers) <==> n in ReviewerNames(reviewers[..|reviewers| - 1]) || n == reviewers[|reviewers| - 1].name
  {
    assert ReviewerNames(reviewers) == ReviewerNames(reviewers[..|reviewers| - 1]) + [reviewers[|reviewers| - 1].name];
  }

  /** Scores are logged under exactly the names of the available reviewers. */
  lemma {:induction false} NameScoresKeys(p: Paper, available: seq<Reviewer>, reply: (Paper, Reviewer) -> string, n: string)
    ensures n in Keys(NameScores(p, available, reply)) <==> n in ReviewerNames(available)
    decreases |available|
  {
    if available != [] {
      var init := available[..|available| - 1];
      var r := available[|available| - 1];
      NameScoresKeys(p, init, reply, n);
      PutKeys(NameScores(p, init, reply), r.name, ParseScore(reply(p, r)));
      ReviewerNamesSnoc(available);
    }
  }

  /** The scores as the sort key: an `int` score compared as a number. */
  function AsReal(scores: seq<(string, int)>): (r: seq<(string, real)>)
    ensures |r| == |scores| && forall k :: 0 <= k < |scores| ==> r[k] == (scores[k].0, scores[k].1 as real)
  {
    seq(|scores|, k requires 0 <= k < |scores| => (scores[k].0, scores[k].1 as real))
  }

  /** The scores of the reviewers available for a paper under the given load. */
  function Scored(p: Paper, reviewers: seq<Reviewer>, load: map<string, int>, reply: (Paper, Reviewer) -> string): seq<(string, real)>
  {
    AsReal(PairScores(p, Available(p, reviewers, load), reply))
  }

  /** The top two reviewers chosen for a paper with the given load, in score order. */
  function Chosen(p: Paper, reviewers: seq<Reviewer>, load: map<string, int>, reply: (Paper, Reviewer) -> string): seq<string>
  {
    IdsOf(TopTwo(Scored(p, reviewers, load, reply)))
  }

  // ---------------------------------------------------------------------------
  // The per-paper loop
  // ---------------------------------------------------------------------------

  /** The loop's state: `assignments`, `current_load` and `scores_log`. */
  datatype State = State(assignments: seq<(string, seq<string>)>, load: map<string, int>,
                         scoresLog: seq<(string, seq<(string, int)>)>)

  /** Both dictionaries of the state have distinct keys. */
  ghost predicate Good(s: State)
  {
    DistinctKeys(s.assignments) && DistinctKeys(s.scoresLog)
  }

  /**
    One turn of the main loop: skip a paper with fewer than two available
    reviewers; otherwise log the scores under the paper and commit the top two.
   */
  function PaperStep(s: State, p: Paper, reviewers: seq<Reviewer>, reply: (Paper, Reviewer) -> string): (r: State)
    requires Good(s)
    ensures Good(r)
  {
    var available := Available(p, reviewers, s.load);
    if |available| < Wanted then s
    else
      var c := Commit(s.assignments, s.load, p.id, Chosen(p, reviewers, s.load, reply));
      State(c.0, c.1, Put(s.scoresLog, p.id, NameScores(p, available, reply)))
  }

  /** The main loop over the papers, in order, from a given state. */
  function RunPapers(papers: seq<Paper>, reviewers: seq<Reviewer>, reply: (Paper, Reviewer) -> string, s: State): (r: State)
    requires Good(s)
    ensures Good(r)
  {
    if papers == [] then s
    else PaperStep(RunPapers(papers[..|papers| - 1], reviewers, reply, s), papers[|papers| - 1], reviewers, reply)
  }

  /** The start state: every dictionary empty. */
  const Start: State := State([], map[], [])

  /** The scoring loop of one paper: one reply per available reviewer, filed by key and by name. */
  method ScorePairs(p: Paper, available: seq<Reviewer>, reply: (Paper, Reviewer) -> string)
    returns (pairScores: seq<(string, int)>, byName: seq<(string, int)>)
    ensures pairScores == PairScores(p, available, reply) && byName == NameScores(p, available, reply)
  {
    pairScores := [];
    byName := [];
    for j := 0 to |available|
      invariant pairScores == PairScores(p, available[..j], reply)
      invariant byName == NameScores(p, available[..j], reply)
    {
      assert available[..j + 1][..j] == available[..j];
      var reviewer := available[j];
      var score := ParseScore(reply(p, reviewer));
      pairScores := Put(pairScores, reviewer.id, score);
      byName := Put(byName, reviewer.name, score);
    }
    assert available[..|available|] == available;
  }

  /** Phase 2: the per-paper loop. */
  method AssignPairwise(papers: seq<Paper>, reviewers: seq<Reviewer>, reply: (Paper, Reviewer) -> string) returns (s: State)
    ensures s == RunPapers(papers, reviewers, reply, Start)
  {
    var assignments: seq<(string, seq<string>)> := [];
    var currentLoad: map<string, int> := map[];
    var scoresLog: seq<(string, seq<(string, int)>)> := [];
    for i := 0 to |papers|
      invariant DistinctKeys(assignments) && DistinctKeys(scoresLog)
      invariant State(assignments, currentLoad, scoresLog) == RunPapers(papers[..i], reviewers, reply, Start)
    {
      assert papers[..i + 1][..i] == papers[..i];
      var paper := papers[i];
      var available := GetAvailable(paper, reviewers, currentLoad);
      if |available| < Wanted {
        continue;
      }
      var pairScores, byName := ScorePairs(paper, available, reply);
      scoresLog := Put(scoresLog, paper.id, byName);
      var top2 := TopTwo(AsReal(pairScores));
      assignments, currentLoad := CommitPicks(assignments, currentLoad, paper.id, IdsOf(top2));
    }
    assert papers[..|papers|] == papers;
    s := State(assignments, currentLoad, scoresLog);
  }

  /** For distinct reviewer keys, the scores hold one entry per available reviewer, in dictionary order. */
  lemma ScoredFresh(p: Paper, reviewers: seq<Reviewer>, load: map<string, int>, reply: (Paper, Reviewer) -> string)
    requires Distinct(ReviewerIds(reviewers))
    ensures Keys(Scored(p, reviewers, load, reply)) == ReviewerIds(Available(p, reviewers, load))
    ensures DistinctKeys(Scored(p, reviewers, load, reply))
  {
    AvailableDistinct(p, reviewers, load);
    PairScoresFresh(p, Available(p, reviewers, load), reply);
  }

  /** With at least two available reviewers, exactly two distinct ones are chosen. */
  lemma ChosenTwo(p: Paper, reviewers: seq<Reviewer>, load: map<string, int>, reply: (Paper, Reviewer) -> string)
    requires Distinct(ReviewerIds(reviewers))
    requires |Available(p, reviewers, load)| >= Wanted
    ensures |Chosen(p, reviewers, load, reply)| == Wanted && Distinct(Chosen(p, reviewers, load, reply))
  {
    var scored := Scored(p, reviewers, load, reply);
    ScoredFresh(p, reviewers, load, reply);
    TopTwoFacts(scored);
    TopTwoDistinct(scored);
    var top := TopTwo(scored);
    var chosen := Chosen(p, reviewers, load, reply);
    forall a, b | 0 <= a < b < |chosen|
      ensures chosen[a] != chosen[b]
    {
      assert chosen[a] == top[a].0 && chosen[b] == top[b].0;
    }
  }

  /** Every chosen reviewer is an available one. */
  lemma ChosenAvailable(p: Paper, reviewers: seq<Reviewer>, load: map<string, int>, reply: (Paper, Reviewer) -> string)
    requires Distinct(ReviewerIds(reviewers))
    ensures forall rid :: rid in Chosen(p, reviewers, load, reply) ==> rid in ReviewerIds(Available(p, reviewers, load))
  {
    var scored := Scored(p, reviewers, load, reply);
    ScoredFresh(p, reviewers, load, reply);
    TopTwoFacts(scored);
    var top := TopTwo(scored);
    var chosen := Chosen(p, reviewers, load, reply);
    forall rid | rid in chosen
      ensures rid in ReviewerIds(Available(p, reviewers, load))
    {
      var k :| 0 <= k < |chosen| && chosen[k] == rid;
      assert top[k] in scored;
      var j :| 0 <= j < |scored| && scored[j] == top[k];
      assert Keys(scored)[j] == rid;
    }
  }

  /** No available reviewer left out scores above a chosen one. */
  lemma ChosenBest(p: Paper, reviewers: seq<Reviewer>, load: map<string, int>, reply: (Paper, Reviewer) -> string)
    ensures forall x, k :: x in Scored(p, reviewers, load, reply) && x.0 !in Chosen(p, reviewers, load, reply) &&
                           0 <= k < |Chosen(p, reviewers, load, reply)| ==>
              x.1 <= TopTwo(Scored(p, reviewers, load, reply))[k].1
  {
    var scored := Scored(p, reviewers, load, reply);
    TopTwoBest(scored);
    var top := TopTwo(scored);
    var chosen := Chosen(p, reviewers, load, reply);
    forall x, k | x in scored && x.0 !in chosen && 0 <= k < |chosen|
      ensures x.1 <= top[k].1
    {
      forall j | 0 <= j < |top|
        ensures top[j] != x
      {
        assert chosen[j] == top[j].0;
      }
    }
  }

  /**
    One turn changes nothing for a paper with fewer than two available
    reviewers; otherwise it adds the paper to the lists of exactly the two
    chosen reviewers and raises their loads by one, leaving every other
    reviewer as it was, and logs the name-keyed scores under the paper.
   */
  lemma PaperStepEffect(s: State, p: Paper, reviewers: seq<Reviewer>, reply: (Paper, Reviewer) -> string, rid: string)
    requires Good(s) && Distinct(ReviewerIds(reviewers))
    ensures |Available(p, reviewers, s.load)| < Wanted ==> PaperStep(s, p, reviewers, reply) == s
    ensures |Available(p, reviewers, s.load)| >= Wanted ==>
              var chosen := Chosen(p, reviewers, s.load, reply);
              var after := PaperStep(s, p, reviewers, reply);
              && PapersOf(after.assignments, rid) == PapersOf(s.assignments, rid) + (if rid in chosen then [p.id] else [])
              && Get(after.load, rid) == Get(s.load, rid) + (if rid in chosen then 1 else 0)
              && Lookup(after.scoresLog, p.id) == Some(NameScores(p, Available(p, reviewers, s.load), reply))
  {
    if |Available(p, reviewers, s.load)| >= Wanted {
      var chosen := Chosen(p, reviewers, s.load, reply);
      ChosenTwo(p, reviewers, s.load, reply);
      CommitPapers(s.assignments, s.load, p.id, chosen, rid);
      CommitLoad(s.assignments, s.load, p.id, chosen, rid);
      LookupPut(s.scoresLog, p.id, NameScores(p, Available(p, reviewers, s.load), reply), p.id);
    }
  }

  /** With distinct keys, a stored reviewer whose key is among the available ones is available. */
  lemma AvailableById(p: Paper, reviewers: seq<Reviewer>, load: map<string, int>, i: nat)
    requires Distinct(ReviewerIds(reviewers)) && i < |reviewers|
    requires reviewers[i].id in ReviewerIds(Available(p, reviewers, load))
    ensures IsAvailable(p, reviewers[i], load)
  {
    var available := Available(p, reviewers, load);
    var k :| 0 <= k < |available| && ReviewerIds(available)[k] == reviewers[i].id;
    assert available[k] in available;
    AvailableMembers(p, reviewers, load, available[k]);
    var j :| 0 <= j < |reviewers| && reviewers[j] == available[k];
    assert ReviewerIds(reviewers)[j] == ReviewerIds(reviewers)[i];
  }

  /** A turn either leaves a capped reviewer's load alone or leaves it within the limit. */
  lemma PaperStepCapacity(s: State, p: Paper, reviewers: seq<Reviewer>, reply: (Paper, Reviewer) -> string, i: nat)
    requires Good(s) && Distinct(ReviewerIds(reviewers))
    requires i < |reviewers| && reviewers[i].maxPapers > 0
    ensures var after := Get(PaperStep(s, p, reviewers, reply).load, reviewers[i].id);
            after == Get(s.load, reviewers[i].id) || after <= reviewers[i].maxPapers
  {
    PaperStepEffect(s, p, reviewers, reply, reviewers[i].id);
    if |Available(p, reviewers, s.load)| >= Wanted && reviewers[i].id in Chosen(p, reviewers, s.load, reply) {
      ChosenAvailable(p, reviewers, s.load, reply);
      AvailableById(p, reviewers, s.load, i);
    }
  }

  /**
    Commits never take a capped reviewer past its limit: from the empty
    ledger its final load is at most its limit.
   */
  lemma {:induction false} RunCapacity(papers: seq<Paper>, reviewers: seq<Reviewer>, reply: (Paper, Reviewer) -> string, s: State, i: nat)
    requires Good(s) && Distinct(ReviewerIds(reviewers))
    requires i < |reviewers| && reviewers[i].maxPapers > 0
    requires Get(s.load, reviewers[i].id) <= reviewers[i].maxPapers
    ensures Get(RunPapers(papers, reviewers, reply, s).load, reviewers[i].id) <= reviewers[i].maxPapers
    decreases |papers|
  {
    if papers != [] {
      RunCapacity(papers[..|papers| - 1], reviewers, reply, s, i);
      PaperStepCapacity(RunPapers(papers[..|papers| - 1], reviewers, reply, s), papers[|papers| - 1], reviewers, reply, i);
    }
  }

  /** The ledger counts commits: each reviewer's load rises by exactly the number of papers added to its list. */
  lemma {:induction false} RunLedger(papers: seq<Paper>, reviewers: seq<Reviewer>, reply: (Paper, Reviewer) -> string, s: State, rid: string)
    requires Good(s) && Distinct(ReviewerIds(reviewers))
    ensures Get(RunPapers(papers, reviewers, reply, s).load, rid) ==
              Get(s.load, rid) + |PapersOf(RunPapers(papers, reviewers, reply, s).assignments, rid)| - |PapersOf(s.assignments, rid)|
    decreases |papers|
  {
    if papers != [] {
      var prev := RunPapers(papers[..|papers| - 1], reviewers, reply, s);
      RunLedger(papers[..|papers| - 1], reviewers, reply, s, rid);
      PaperStepEffect(prev, papers[|papers| - 1], reviewers, reply, rid);
    }
  }

  /**
    From the start state: each reviewer's final load is the number of papers
    in its list, and a capped reviewer's is within its limit.
   */
  lemma StartLedger(papers: seq<Paper>, reviewers: seq<Reviewer>, reply: (Paper, Reviewer) -> string, i: nat)
    requires Distinct(ReviewerIds(reviewers)) && i < |reviewers|
    ensures var final := RunPapers(papers, reviewers, reply, Start);
            && Get(final.load, reviewers[i].id) == |PapersOf(final.assignments, reviewers[i].id)|
            && (reviewers[i].maxPapers > 0 ==> Get(final.load, reviewers[i].id) <= reviewers[i].maxPapers)
  {
    RunLedger(papers, reviewers, reply, Start, reviewers[i].id);
    if reviewers[i].maxPapers > 0 {
      RunCapacity(papers, reviewers, reply, Start, i);
    }
  }

  // ---------------------------------------------------------------------------
  // The output rows
  // ---------------------------------------------------------------------------

  /** A score cell: blank, or a number. */
  datatype Cell = Blank | Number(value: int)

  /** One output row: paper id, title, method, the first two reviewer names and their scores. */
  datatype Row = Row(paperId: string, title: string, researchMethod: string, reviewer1: string, reviewer2: string,
                     score1: Cell, score2: Cell)

  /** `reviewers.get(rid).name` for every stored key. */
  function NameMap(reviewers: seq<Reviewer>): map<string, string>
  {
    if reviewers == [] then map[]
    else
      var r := reviewers[|reviewers| - 1];
      NameMap(reviewers[..|reviewers| - 1])[r.id := r.name]
  }

  /** `scores.get(name, 0) if name else ''`. */
  function ScoreCell(scores: seq<(string, int)>, name: string): Cell
  {
    if name != "" then Number(OrElse(Lookup(scores, name), 0)) else Blank
  }

  /** The row of one paper, from the inverted assignments and the score log. */
  function PaperRow(p: Paper, pa: map<string, seq<string>>, log: seq<(string, seq<(string, int)>)>): Row
  {
    var names := NamesFor(pa, p.id);
    var scores := OrElse(Lookup(log, p.id), []);
    var r1 := if |names| > 0 then names[0] else "";
    var r2 := if |names| > 1 then names[1] else "";
    Row(p.id, Take(p.title, 60), V2.MethodCell(p.researchMethod), r1, r2, ScoreCell(scores, r1), ScoreCell(scores, r2))
  }

  /** The ids of the papers, in order (over this script's own `Paper` record). */
  function PaperIds(papers: seq<Paper>): (ids: seq<string>)
    ensures |ids| == |papers| && forall i :: 0 <= i < |papers| ==> ids[i] == papers[i].id
  {
    seq(|papers|, i requires 0 <= i < |papers| => papers[i].id)
  }

  /** `sorted(papers, key=lambda p: p.id)`. */
  function SortedById(papers: seq<Paper>): seq<Paper>
  {
    SortBy(papers, ByText(PaperIds(papers)))
  }

  /** The data rows of `save_assignments`. */
  function OutputRows(s: State, papers: seq<Paper>, reviewers: seq<Reviewer>): (rows: seq<Row>)
    ensures |rows| == |papers|
  {
    var pa := Invert(s.assignments, NameMap(reviewers));
    var sorted := SortedById(papers);
    seq(|sorted|, k requires 0 <= k < |sorted| => PaperRow(sorted[k], pa, s.scoresLog))
  }

  /** `save_assignments` without the file: invert the assignments, then one row per paper in id order. */
  method SaveAssignments(s: State, papers: seq<Paper>, reviewers: seq<Reviewer>) returns (rows: seq<Row>)
    ensures rows == OutputRows(s, papers, reviewers)
  {
    var pa := InvertAssignments(s.assignments, NameMap(reviewers));
    var sorted := SortedById(papers);
    rows := [];
    for k := 0 to |sorted|
      invariant rows == OutputRows(s, papers, reviewers)[..k]
    {
      rows := rows + [PaperRow(sorted[k], pa, s.scoresLog)];
    }
  }

  /**
    A score cell is blank exactly when its reviewer cell is; otherwise it is
    the score logged for the paper under that name, or 0 when none is.
   */
  lemma OutputScoreCells(s: State, papers: seq<Paper>, reviewers: seq<Reviewer>, k: nat)
    requires k < |papers|
    ensures var row := OutputRows(s, papers, reviewers)[k];
            var scores := OrElse(Lookup(s.scoresLog, row.paperId), []);
            && row.paperId == SortedById(papers)[k].id
            && |row.title| <= 60
            && (row.score1.Blank? <==> row.reviewer1 == "")
            && (row.score2.Blank? <==> row.reviewer2 == "")
            && (row.reviewer1 != "" ==> row.score1.value == OrElse(Lookup(scores, row.reviewer1), 0))
            && (row.reviewer2 != "" ==> row.score2.value == OrElse(Lookup(scores, row.reviewer2), 0))
  {
    var sorted := SortedById(papers);
    var row := OutputRows(s, papers, reviewers)[k];
    assert row == PaperRow(sorted[k], Invert(s.assignments, NameMap(reviewers)), s.scoresLog);
  }

  /** A reviewer cell that is not blank names a stored reviewer that holds the paper. */
  lemma OutputRowNames(s: State, papers: seq<Paper>, reviewers: seq<Reviewer>, k: nat)
    requires k < |papers|
    ensures var row := OutputRows(s, papers, reviewers)[k];
            var names := NameMap(reviewers);
            && (row.reviewer1 != "" ==> exists i :: 0 <= i < |s.assignments| && s.assignments[i].0 in names &&
                                          names[s.assignments[i].0] == row.reviewer1 && row.paperId in s.assignments[i].1)
            && (row.reviewer2 != "" ==> exists i :: 0 <= i < |s.assignments| && s.assignments[i].0 in names &&
                                          names[s.assignments[i].0] == row.reviewer2 && row.paperId in s.assignments[i].1)
  {
    var sorted := SortedById(papers);
    var pa := Invert(s.assignments, NameMap(reviewers));
    var row := OutputRows(s, papers, reviewers)[k];
    assert row == PaperRow(sorted[k], pa, s.scoresLog);
    var pid := sorted[k].id;
    var names := NamesFor(pa, pid);
    if |names| > 0 {
      assert names[0] in names;
      InvertMembers(s.assignments, NameMap(reviewers), pid, names[0]);
    }
    if |names| > 1 {
      assert names[1] in names;
      InvertMembers(s.assignments, NameMap(reviewers), pid, names[1]);
    }
  }

  // ---------------------------------------------------------------------------
  // The whole run
  // ---------------------------------------------------------------------------

  /** `main` without the I/O: classify, assign and build the rows. */
  method PairwiseMain(papers: seq<Paper>, reviewers: seq<Reviewer>, reply: (Paper, Reviewer) -> string) returns (rows: Option<seq<Row>>)
    ensures reviewers == [] <==> rows == None
    ensures reviewers != [] ==> rows == Some(OutputRows(RunPapers(Classified(papers), reviewers, reply, Start), Classified(papers), reviewers))
  {
    if reviewers == [] {
      return None;
    }
    var classified := ClassifyPapers(papers);
    var s := AssignPairwise(classified, reviewers, reply);
    var table := SaveAssignments(s, classified, reviewers);
    rows := Some(table);
  }
}
