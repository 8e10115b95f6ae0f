/**
  The keyword-based allocation script (`assign_reviewers_v2.py`): reviewer
  records come with a structured expertise string, papers are classified by
  counting method words, and each paper in turn receives the two best
  available reviewers, ranked by keyword similarity with a load penalty,
  under per-reviewer limits and on top of the load of earlier assignments.
 */
module AssignReviewersV2 {
  import opened Common
  import opened Text
  import opened Sorting
  import opened Patterns
  import opened PerPaper

  /** The academic stopwords `Paper._extract_keywords` drops from the abstract. */
  const Stopwords: set<string> := {
    "the", "and", "for", "are", "but", "not", "you", "all",
    "can", "had", "her", "was", "one", "our", "out", "has",
    "have", "been", "were", "being", "their", "there", "this",
    "that", "with", "they", "from", "which", "will", "would",
    "could", "should", "about", "into", "through", "during",
    "before", "after", "above", "below", "between", "under",
    "also", "only", "other", "such", "than", "then", "these",
    "those", "some", "what", "when", "where", "while", "more",
    "most", "each", "both", "find", "found", "study", "paper",
    "research", "results", "using", "based", "show", "shows"}

  /** A paper: the CSV fields, the classified method and the derived keyword set. */
  datatype Paper = Paper(id: string, title: string, abstractText: string, keywordsField: string,
                         researchMethod: Option<string>, keywords: set<string>)

  /** `Paper(...)` with `__post_init__`, which builds the keyword set. */
  method NewPaper(id: string, title: string, abstractText: string, keywordsField: string) returns (p: Paper)
    ensures p == Paper(id, title, abstractText, keywordsField, None, KeywordSet(keywordsField, abstractText, Stopwords))
    ensures forall w :: w in p.keywords ==> IsLowerCase(w) && |w| > 2
  {
    var words := ExtractKeywordSet(keywordsField, abstractText, Stopwords);
    p := Paper(id, title, abstractText, keywordsField, None, words);
    forall w | w in p.keywords
      ensures IsLowerCase(w) && |w| > 2
    {
      KeywordSetTerms(keywordsField, abstractText, Stopwords, w);
    }
  }

  // ---------------------------------------------------------------------------
  // The expertise string
  // ---------------------------------------------------------------------------

  /** The comma-separated keyword list of a string. */
  function KeywordList(s: string): seq<string>
  {
    CleanFields(Split(s, ','))
  }

  /** A part of the form `Method: …`, in any ASCII case. */
  predicate IsMethodPart(part: string)
  {
    StartsWith(Lower(part), "method:")
  }

  /** A part of the form `Keywords: …`, in any ASCII case. */
  predicate IsKeywordsPart(part: string)
  {
    StartsWith(Lower(part), "keywords:")
  }

  /**
    One step of the part loop: a `method:` part sets the method to the rest
    of the part, stripped; otherwise a `keywords:` part sets the keywords to
    the comma fields of the rest.
   */
  function PartStep(acc: (string, seq<string>), part0: string): (string, seq<string>)
  {
    var part := Strip(part0);
    if IsMethodPart(part) then (Strip(Drop(part, 7)), acc.1)
    else if IsKeywordsPart(part) then (acc.0, KeywordList(Strip(Drop(part, 9))))
    else acc
  }

  /** The method and keywords the part loop ends with, starting from "Mixed" and none. */
  function Parts(parts: seq<string>): (string, seq<string>)
  {
    if parts == [] then ("Mixed", [])
    else PartStep(Parts(parts[..|parts| - 1]), parts[|parts| - 1])
  }

  lemma PartsSnoc(parts: seq<string>, i: nat)
    requires i < |parts|
    ensures Parts(parts[..i + 1]) == PartStep(Parts(parts[..i]), parts[i])
  {
    assert parts[..i + 1][..i] == parts[..i];
  }

  /** `parse_expertise`: the method and keyword list of an expertise string. */
  function Expertise(expertise: string): (string, seq<string>)
  {
    if expertise == "" then ("Mixed", [])
    else if '|' in expertise then
      Parts(Split(expertise, '|'))
    else ("Mixed", KeywordList(expertise))
  }

  /** `parse_expertise`, with its loop over the `|`-separated parts. */
  method ParseExpertise(expertise: string) returns (researchMethod: string, keywords: seq<string>)
    ensures (researchMethod, keywords) == Expertise(expertise)
  {
    researchMethod := "Mixed";
    keywords := [];
    if expertise == "" {
      return;
    }
    if '|' in expertise {
      var parts := Split(expertise, '|');
      var i := 0;
      while i < |parts|
        invariant i <= |parts|
        invariant (researchMethod, keywords) == Parts(parts[..i])
      {
        PartsSnoc(parts, i);
        var part := Strip(parts[i]);
        if IsMethodPart(part) {
          researchMethod := Strip(Drop(part, 7));
        } else if IsKeywordsPart(part) {
          keywords := KeywordList(Strip(Drop(part, 9)));
        }
        i := i + 1;
      }
      assert parts[..i] == parts;
    } else {
      keywords := KeywordList(expertise);
    }
  }

  /** No parsed keyword is empty or carries outer whitespace. */
  lemma ExpertiseKeywordsClean(expertise: string)
    ensures forall k :: k in Expertise(expertise).1 ==> k != "" && Strip(k) == k
  {
    forall k | k in Expertise(expertise).1
      ensures k != "" && Strip(k) == k
    {
      if '|' in expertise {
        PartsKeywordsClean(Split(expertise, '|'), k);
      } else {
        CleanFieldsFrom(Split(expertise, ','), k);
      }
    }
  }

  lemma {:induction false} PartsKeywordsClean(parts: seq<string>, k: string)
    requires k in Parts(parts).1
    ensures k != "" && Strip(k) == k
    decreases |parts|
  {
    var part := Strip(parts[|parts| - 1]);
    if !IsMethodPart(part) && IsKeywordsPart(part) && k in KeywordList(Strip(Drop(part, 9))) {
      CleanFieldsFrom(Split(Strip(Drop(part, 9)), ','), k);
    } else {
      PartsKeywordsClean(parts[..|parts| - 1], k);
    }
  }

  /** Without `|`, the whole string is one comma list and the method stays "Mixed". */
  lemma ExpertisePlain(expertise: string)
    requires '|' !in expertise
    ensures Expertise(expertise) == ("Mixed", KeywordList(expertise))
  {
    if expertise == "" {
      assert Strip("") == "";
      assert CleanFields([""]) == CleanFields([]);
    }
  }

  /** Empty expertise gives the defaults. */
  lemma ExpertiseEmpty()
    ensures Expertise("") == ("Mixed", [])
  {
  }

  /** With `|`, the last `method:` part decides the method; with none the method is "Mixed". */
  lemma {:induction false} LastMethodPartWins(parts: seq<string>, j: nat)
    requires j < |parts| && IsMethodPart(Strip(parts[j]))
    requires forall i :: j < i < |parts| ==> !IsMethodPart(Strip(parts[i]))
    ensures Parts(parts).0 == Strip(Drop(Strip(parts[j]), 7))
    decreases |parts|
  {
    if j < |parts| - 1 {
      var init := parts[..|parts| - 1];
      assert init[j] == parts[j];
      forall i | j < i < |init|
        ensures !IsMethodPart(Strip(init[i]))
      {
        assert init[i] == parts[i];
      }
      LastMethodPartWins(init, j);
    }
  }

  lemma {:induction false} NoMethodPartMixed(parts: seq<string>)
    requires forall i :: 0 <= i < |parts| ==> !IsMethodPart(Strip(parts[i]))
    ensures Parts(parts).0 == "Mixed"
    decreases |parts|
  {
    if parts != [] {
      var init := parts[..|parts| - 1];
      forall i | 0 <= i < |init|
        ensures !IsMethodPart(Strip(init[i]))
      {
        assert init[i] == parts[i];
      }
      NoMethodPartMixed(init);
    }
  }

  // ---------------------------------------------------------------------------
  // Reviewer records
  // ---------------------------------------------------------------------------

  /** A stored reviewer record; each field may be missing. */
  datatype Record = Record(name: Option<string>, expertise: Option<string>, maxPapers: Option<int>)

  /** An entry of the fallback expertise table; each field may be missing. */
  datatype Fallback = Fallback(researchMethod: Option<string>, keywords: Option<seq<string>>)

  /** A reviewer: its record key, name, method label, keyword list, keyword set and paper limit (0 for none). */
  datatype Reviewer = Reviewer(id: string, name: string, researchMethod: string, keywords: seq<string>,
                               keywordSet: set<string>, maxPapers: int)

  /** What one keyword adds to the keyword set: the keyword lower-cased, and its words longer than three characters. */
  function KeywordTerms(kw: string): set<string>
  {
    {Lower(kw)} + LongOnes(Words(Lower(kw)), 3, {})
  }

  /** The keyword set built from a keyword list. */
  function KeywordSetOf(keywords: seq<string>): set<string>
  {
    if keywords == [] then {} else KeywordSetOf(keywords[..|keywords| - 1]) + KeywordTerms(keywords[|keywords| - 1])
  }

  /** The keyword-set loop of `from_firebase`. */
  method BuildKeywordSet(keywords: seq<string>) returns (keywordSet: set<string>)
    ensures keywordSet == KeywordSetOf(keywords)
  {
    keywordSet := {};
    var i := 0;
    while i < |keywords|
      invariant i <= |keywords|
      invariant keywordSet == KeywordSetOf(keywords[..i])
    {
      assert keywords[..i + 1][..i] == keywords[..i];
      var kwLower := Lower(keywords[i]);
      keywordSet := keywordSet + {kwLower};
      keywordSet := AddLongOnes(keywordSet, Words(kwLower), 3, {});
      i := i + 1;
    }
    assert keywords[..i] == keywords;
  }

  /** `w` is a term keyword `kw` contributes. */
  ghost predicate TermOf(kw: string, w: string)
  {
    w == Lower(kw) || (|w| > 3 && w in Words(Lower(kw)))
  }

  /** Every term of the keyword set is lower case and comes from some keyword. */
  lemma {:induction false} KeywordSetOfFrom(keywords: seq<string>, w: string)
    requires w in KeywordSetOf(keywords)
    ensures IsLowerCase(w)
    ensures exists i :: 0 <= i < |keywords| && TermOf(keywords[i], w)
    decreases |keywords|
  {
    var init := keywords[..|keywords| - 1];
    var kw := keywords[|keywords| - 1];
    if w in KeywordSetOf(init) {
      KeywordSetOfFrom(init, w);
      var i :| 0 <= i < |init| && TermOf(init[i], w);
      assert keywords[i] == init[i];
    } else {
      LowerIsLowerCase(kw);
      if w != Lower(kw) {
        LongOnesMembers(Words(Lower(kw)), 3, {}, w);
        WordsOfLowerCase(Lower(kw));
        var k :| 0 <= k < |Words(Lower(kw))| && Words(Lower(kw))[k] == w;
      }
      assert TermOf(keywords[|keywords| - 1], w);
    }
  }

  /** Every keyword, lower-cased, is in the keyword set. */
  lemma {:induction false} KeywordSetOfHolds(keywords: seq<string>, i: nat)
    requires i < |keywords|
    ensures Lower(keywords[i]) in KeywordSetOf(keywords)
    decreases |keywords|
  {
    var init := keywords[..|keywords| - 1];
    if i < |init| {
      assert init[i] == keywords[i];
      KeywordSetOfHolds(init, i);
    }
  }

  /**
    Where a reviewer's method and keywords come from: the expertise string,
    unless it yields no keywords and the name has a fallback entry.
   */
  function ReviewerSource(name: string, expertise: string, fallbacks: map<string, Fallback>): (string, seq<string>)
  {
    var parsed := Expertise(expertise);
    if parsed.1 == [] && name in fallbacks then
      (OrElse(fallbacks[name].researchMethod, parsed.0), OrElse(fallbacks[name].keywords, []))
    else parsed
  }

  /** `Reviewer.from_firebase`: the reviewer a stored record describes. */
  function FromFirebase(rid: string, data: Record, fallbacks: map<string, Fallback>): Reviewer
  {
    var name := OrElse(data.name, "Unknown");
    var source := ReviewerSource(name, OrElse(data.expertise, ""), fallbacks);
    Reviewer(rid, name, source.0, source.1, KeywordSetOf(source.1), OrElse(data.maxPapers, 0))
  }

  /** `Reviewer.from_firebase`, step by step. */
  method NewReviewer(rid: string, data: Record, fallbacks: map<string, Fallback>) returns (r: Reviewer)
    ensures r == FromFirebase(rid, data, fallbacks)
  {
    var name := OrElse(data.name, "Unknown");
    var researchMethod, keywords := ParseExpertise(OrElse(data.expertise, ""));
    if keywords == [] && name in fallbacks {
      var fallback := fallbacks[name];
      researchMethod := OrElse(fallback.researchMethod, researchMethod);
      keywords := OrElse(fallback.keywords, []);
    }
    var keywordSet := BuildKeywordSet(keywords);
    r := Reviewer(rid, name, researchMethod, keywords, keywordSet, OrElse(data.maxPapers, 0));
  }

  /**
    A built reviewer keeps its record key; its keyword set is lower case and
    holds every keyword lower-cased; keywords parsed from the expertise
    string are never blank; a record without a limit has none (0).
   */
  lemma FromFirebaseFacts(rid: string, data: Record, fallbacks: map<string, Fallback>)
    ensures var r := FromFirebase(rid, data, fallbacks);
            && r.id == rid
            && (data.maxPapers.None? ==> r.maxPapers == 0)
            && (forall w :: w in r.keywordSet ==> IsLowerCase(w))
            && (forall i :: 0 <= i < |r.keywords| ==> Lower(r.keywords[i]) in r.keywordSet)
            && (r.keywords == Expertise(OrElse(data.expertise, "")).1 ==> forall k :: k in r.keywords ==> k != "" && Strip(k) == k)
  {
    var r := FromFirebase(rid, data, fallbacks);
    forall w | w in r.keywordSet
      ensures IsLowerCase(w)
    {
      KeywordSetOfFrom(r.keywords, w);
    }
    forall i | 0 <= i < |r.keywords|
      ensures Lower(r.keywords[i]) in r.keywordSet
    {
      KeywordSetOfHolds(r.keywords, i);
    }
    ExpertiseKeywordsClean(OrElse(data.expertise, ""));
  }

  /** The fallback table is consulted only when the expertise string yields no keywords. */
  lemma FallbackOnlyWithoutKeywords(rid: string, data: Record, fallbacks: map<string, Fallback>)
    requires Expertise(OrElse(data.expertise, "")).1 != []
    ensures FromFirebase(rid, data, fallbacks).researchMethod == Expertise(OrElse(data.expertise, "")).0
    ensures FromFirebase(rid, data, fallbacks).keywords == Expertise(OrElse(data.expertise, "")).1
  {
  }

  // ---------------------------------------------------------------------------
  // Eligibility and similarity
  // ---------------------------------------------------------------------------

  /** `method_matches`: both labels are compared lower-cased, by substring. */
  predicate MethodMatches(paperMethod: string, reviewerMethod: string)
  {
    var pm := Lower(paperMethod);
    var rm := Lower(reviewerMethod);
    if Contains(rm, "mixed") then true
    else if pm == "qualitative" then Contains(rm, "qualitative") || Contains(rm, "mixed")
    else if pm == "quantitative" then Contains(rm, "quantitative") || Contains(rm, "mixed")
    else if pm == "conceptual" then true
    else true
  }

  /**
    The eligibility table: a reviewer whose label names "mixed" takes every
    paper; otherwise a qualitative paper needs "qualitative" in the reviewer's
    label, a quantitative paper needs "quantitative", and any other paper
    takes every reviewer.
   */
  lemma MethodMatchesExactly(paperMethod: string, reviewerMethod: string)
    ensures MethodMatches(paperMethod, reviewerMethod) <==>
              || Contains(Lower(reviewerMethod), "mixed")
              || (Lower(paperMethod) == "qualitative" && Contains(Lower(reviewerMethod), "qualitative"))
              || (Lower(paperMethod) == "quantitative" && Contains(Lower(reviewerMethod), "quantitative"))
              || (Lower(paperMethod) != "qualitative" && Lower(paperMethod) != "quantitative")
  {
  }

  /** A "Quant/Mixed" reviewer may take a Qualitative paper. */
  lemma QuantMixedTakesQualitative()
    ensures MethodMatches("Qualitative", "Quant/Mixed")
  {
    assert Lower("Quant/Mixed") == "quant/mixed";
    assert Lower("Quant/Mixed")[6..11] == "mixed";
    assert At(Lower("Quant/Mixed"), 6, "mixed");
  }

  /** A "Quantitative" reviewer may not take a Qualitative paper. */
  lemma QuantitativeRefusesQualitative()
    ensures !MethodMatches("Qualitative", "Quantitative")
  {
    var rm := Lower("Quantitative");
    assert rm == "quantitative";
    MissingCharNotContained(rm, "mixed", 0);
    MissingCharNotContained(rm, "qualitative", 3);
  }

  /**
    `calculate_keyword_similarity`: the share of the reviewer's keyword set
    the paper matches, plus 0.1 per match, capped at 1; nothing when either
    set is empty.
   */
  function KeywordSimilarity(paperKeywords: set<string>, reviewerKeywords: set<string>): (sim: real)
    ensures 0.0 <= sim <= 1.0
    ensures sim == 0.0 <==> paperKeywords * reviewerKeywords == {}
  {
    if paperKeywords == {} || reviewerKeywords == {} then 0.0
    else
      var overlap := |paperKeywords * reviewerKeywords|;
      var share := overlap as real / |reviewerKeywords| as real;
      assert share >= 0.0;
      var score := share + overlap as real * 0.1;
      assert overlap > 0 ==> score > 0.0;
      if score <= 1.0 then score else 1.0
  }

  // ---------------------------------------------------------------------------
  // Available reviewers and their ranking
  // ---------------------------------------------------------------------------

  /** The record keys of the reviewers, in dictionary order (over this script's own `Reviewer` record). */
  function ReviewerIds(reviewers: seq<Reviewer>): (ids: seq<string>)
    ensures |ids| == |reviewers| && forall i :: 0 <= i < |reviewers| ==> ids[i] == reviewers[i].id
  {
    seq(|reviewers|, i requires 0 <= i < |reviewers| => reviewers[i].id)
  }

  /** `reviewers[rid]`: the reviewer stored under a key. */
  function Find(reviewers: seq<Reviewer>, rid: string): (r: Option<Reviewer>)
    ensures r.Some? ==> r.value in reviewers && r.value.id == rid
    ensures r.None? ==> rid !in ReviewerIds(reviewers)
  {
    if reviewers == [] then None
    else if reviewers[0].id == rid then Some(reviewers[0])
    else
      assert ReviewerIds(reviewers) == [reviewers[0].id] + ReviewerIds(reviewers[1..]);
      Find(reviewers[1..], rid)
  }

  /** With distinct keys, looking a reviewer's key up finds that reviewer. */
  lemma {:induction false} FindAt(reviewers: seq<Reviewer>, i: nat)
    requires Distinct(ReviewerIds(reviewers)) && i < |reviewers|
    ensures Find(reviewers, reviewers[i].id) == Some(reviewers[i])
    decreases i
  {
    if i > 0 {
      assert ReviewerIds(reviewers)[0] != ReviewerIds(reviewers)[i];
      assert ReviewerIds(reviewers[1..]) == ReviewerIds(reviewers)[1..];
      assert reviewers[1..][i - 1] == reviewers[i];
      FindAt(reviewers[1..], i - 1);
    }
  }

  /** `paper.method or 'Mixed'`: a missing or empty method reads as "Mixed". */
  function EffectiveMethod(m: Option<string>): string
  {
    if m.Some? && m.value != "" then m.value else "Mixed"
  }

  /** The reviewer can take another paper: it has no limit, or its load is below the limit. */
  predicate HasRoom(r: Reviewer, load: map<string, int>)
  {
    !(r.maxPapers > 0 && Get(load, r.id) >= r.maxPapers)
  }

  /** The two tests of `get_available_reviewers`. */
  predicate IsAvailable(p: Paper, r: Reviewer, load: map<string, int>)
  {
    MethodMatches(EffectiveMethod(p.researchMethod), r.researchMethod) && HasRoom(r, load)
  }

  /** `get_available_reviewers`: the keys of the available reviewers, in dictionary order. */
  function Available(p: Paper, reviewers: seq<Reviewer>, load: map<string, int>): seq<string>
  {
    if reviewers == [] then []
    else
      var r := reviewers[|reviewers| - 1];
      Available(p, reviewers[..|reviewers| - 1], load) + (if IsAvailable(p, r, load) then [r.id] else [])
  }

  /** `get_available_reviewers`, with its loop and its two `continue`s. */
  method GetAvailable(p: Paper, reviewers: seq<Reviewer>, load: map<string, int>) returns (available: seq<string>)
    ensures available == Available(p, reviewers, load)
  {
    available := [];
    for i := 0 to |reviewers|
      invariant available == Available(p, reviewers[..i], load)
    {
      assert reviewers[..i + 1][..i] == reviewers[..i];
      var reviewer := reviewers[i];
      if !MethodMatches(EffectiveMethod(p.researchMethod), reviewer.researchMethod) {
        continue;
      }
      var rload := Get(load, reviewer.id);
      if reviewer.maxPapers > 0 && rload >= reviewer.maxPapers {
        continue;
      }
      available := available + [reviewer.id];
    }
    assert reviewers[..|reviewers|] == reviewers;
  }

  /** `rid` is the key of some reviewer that passes both tests. */
  ghost predicate AvailableReviewer(p: Paper, reviewers: seq<Reviewer>, load: map<string, int>, rid: string)
  {
    exists i :: 0 <= i < |reviewers| && reviewers[i].id == rid && IsAvailable(p, reviewers[i], load)
  }

  /** A key is returned exactly when some reviewer under it matches the paper's method and has room. */
  lemma {:induction false} AvailableMembers(p: Paper, reviewers: seq<Reviewer>, load: map<string, int>, rid: string)
    ensures rid in Available(p, reviewers, load) <==> AvailableReviewer(p, reviewers, load, rid)
    decreases |reviewers|
  {
    if reviewers != [] {
      var init := reviewers[..|reviewers| - 1];
      var r := reviewers[|reviewers| - 1];
      AvailableMembers(p, init, load, rid);
      if AvailableReviewer(p, init, load, rid) {
        var i :| 0 <= i < |init| && init[i].id == rid && IsAvailable(p, init[i], load);
        assert reviewers[i] == init[i];
      }
      if AvailableReviewer(p, reviewers, load, rid) {
        var i :| 0 <= i < |reviewers| && reviewers[i].id == rid && IsAvailable(p, reviewers[i], load);
        if i < |init| {
          assert init[i] == reviewers[i];
        }
      }
    }
  }

  /** With distinct reviewer keys, no key is returned twice. */
  lemma {:induction false} AvailableDistinct(p: Paper, reviewers: seq<Reviewer>, load: map<string, int>)
    requires Distinct(ReviewerIds(reviewers))
    ensures Distinct(Available(p, reviewers, load))
    decreases |reviewers|
  {
    if reviewers != [] {
      var init := reviewers[..|reviewers| - 1];
      var r := reviewers[|reviewers| - 1];
      var ids := ReviewerIds(reviewers);
      assert ReviewerIds(init) == ids[..|init|];
      DistinctSnoc(ids);
      AvailableDistinct(p, init, load);
      var prev := Available(p, init, load);
      if IsAvailable(p, r, load) {
        forall k | 0 <= k < |prev|
          ensures prev[k] != r.id
        {
          assert prev[k] in prev;
          AvailableMembers(p, init, load, prev[k]);
          var i :| 0 <= i < |init| && init[i].id == prev[k] && IsAvailable(p, init[i], load);
          assert ids[..|init|][i] == prev[k];
        }
      }
    }
  }

  /** Every available key names a stored reviewer. */
  lemma AvailableFound(p: Paper, reviewers: seq<Reviewer>, load: map<string, int>)
    ensures forall k :: 0 <= k < |Available(p, reviewers, load)| ==> Find(reviewers, Available(p, reviewers, load)[k]).Some?
  {
    var available := Available(p, reviewers, load);
    forall k | 0 <= k < |available|
      ensures Find(reviewers, available[k]).Some?
    {
      assert available[k] in available;
      AvailableMembers(p, reviewers, load, available[k]);
      var i :| 0 <= i < |reviewers| && reviewers[i].id == available[k] && IsAvailable(p, reviewers[i], load);
      assert ReviewerIds(reviewers)[i] == available[k];
    }
  }

  /** The capacity the load penalty divides by: the limit, or 10 for a reviewer without one. */
  function Capacity(r: Reviewer): (c: int)
    ensures c > 0
  {
    if r.maxPapers > 0 then r.maxPapers else 10
  }

  /**
    The score `rank_reviewers_for_paper` gives one reviewer: keyword
    similarity less 0.3 times the load share of the capacity, never below 0.
   */
  function ReviewerScore(p: Paper, r: Reviewer, load: map<string, int>): (s: real)
    ensures 0.0 <= s
    ensures Get(load, r.id) >= 0 ==> s <= KeywordSimilarity(p.keywords, r.keywordSet)
  {
    var base := KeywordSimilarity(p.keywords, r.keywordSet);
    var penalty := Get(load, r.id) as real / Capacity(r) as real * 0.3;
    assert Get(load, r.id) >= 0 ==> penalty >= 0.0;
    if base - penalty > 0.0 then base - penalty else 0.0
  }

  /** A reviewer without a limit is scored as one whose limit is 10. */
  lemma UncappedAsTen(p: Paper, r: Reviewer, load: map<string, int>)
    requires r.maxPapers <= 0
    ensures ReviewerScore(p, r, load) == ReviewerScore(p, r.(maxPapers := 10), load)
  {
  }

  /** The score dictionary of `rank_reviewers_for_paper`, keyed by reviewer in the order given. */
  function RankScores(p: Paper, available: seq<string>, reviewers: seq<Reviewer>, load: map<string, int>): (scores: seq<(string, real)>)
    requires forall k :: 0 <= k < |available| ==> Find(reviewers, available[k]).Some?
    ensures DistinctKeys(scores)
  {
    if available == [] then []
    else
      var rid := available[|available| - 1];
      Put(RankScores(p, available[..|available| - 1], reviewers, load), rid, ReviewerScore(p, Find(reviewers, rid).value, load))
  }

  /** `rank_reviewers_for_paper`, with its loop. */
  method Rank(p: Paper, available: seq<string>, reviewers: seq<Reviewer>, load: map<string, int>) returns (scores: seq<(string, real)>)
    requires forall k :: 0 <= k < |available| ==> Find(reviewers, available[k]).Some?
    ensures scores == RankScores(p, available, reviewers, load)
  {
    scores := [];
    for k := 0 to |available|
      invariant scores == RankScores(p, available[..k], reviewers, load)
    {
      assert available[..k + 1][..k] == available[..k];
      var rid := available[k];
      var reviewer := Find(reviewers, rid).value;
      var finalScore := ReviewerScore(p, reviewer, load);
      scores := Put(scores, rid, finalScore);
    }
    assert available[..|available|] == available;
  }

  /** For distinct keys the score dictionary holds one entry per key, in order, each the reviewer's score. */
  lemma {:induction false} RankScoresFresh(p: Paper, available: seq<string>, reviewers: seq<Reviewer>, load: map<string, int>)
    requires forall k :: 0 <= k < |available| ==> Find(reviewers, available[k]).Some?
    requires Distinct(available)
    ensures |RankScores(p, available, reviewers, load)| == |available|
    ensures forall k :: 0 <= k < |available| ==>
              RankScores(p, available, reviewers, load)[k] == (available[k], ReviewerScore(p, Find(reviewers, available[k]).value, load))
    decreases |available|
  {
    if available != [] {
      var init := available[..|available| - 1];
      var rid := available[|available| - 1];
      var prev := RankScores(p, init, reviewers, load);
      RankScoresFresh(p, init, reviewers, load);
      forall k | 0 <= k < |prev|
        ensures Keys(prev)[k] != rid
      {
        assert Keys(prev)[k] == available[k];
      }
    }
  }

  // ---------------------------------------------------------------------------
  // The per-paper loop, on a ledger seeded from earlier assignments
  // ---------------------------------------------------------------------------

  /** `current_load[rid] = len(papers)` for each reviewer of the earlier assignments. */
  function SeedLoad(existing: seq<(string, seq<string>)>): map<string, int>
  {
    if existing == [] then map[]
    else
      var e := existing[|existing| - 1];
      SeedLoad(existing[..|existing| - 1])[e.0 := |e.1|]
  }

  /** The seeding loop. */
  method SeedLedger(existing: seq<(string, seq<string>)>) returns (load: map<string, int>)
    ensures load == SeedLoad(existing)
  {
    load := map[];
    for i := 0 to |existing|
      invariant load == SeedLoad(existing[..i])
    {
      assert existing[..i + 1][..i] == existing[..i];
      var (rid, papers) := existing[i];
      load := load[rid := |papers|];
    }
    assert existing[..|existing|] == existing;
  }

  lemma {:induction false} SeedLoadAt(existing: seq<(string, seq<string>)>, i: nat)
    requires DistinctKeys(existing) && i < |existing|
    ensures Get(SeedLoad(existing), existing[i].0) == |existing[i].1|
    decreases |existing|
  {
    var init := existing[..|existing| - 1];
    if i < |init| {
      assert init[i] == existing[i];
      SeedLoadAt(init, i);
    }
  }

  lemma {:induction false} SeedLoadAbsent(existing: seq<(string, seq<string>)>, rid: string)
    requires rid !in Keys(existing)
    ensures Get(SeedLoad(existing), rid) == 0
    decreases |existing|
  {
    if existing != [] {
      var init := existing[..|existing| - 1];
      assert Keys(existing)[|existing| - 1] == existing[|existing| - 1].0;
      forall k | 0 <= k < |init|
        ensures Keys(init)[k] != rid
      {
        assert Keys(init)[k] == Keys(existing)[k];
      }
      SeedLoadAbsent(init, rid);
    }
  }

  /** Each reviewer starts with as many papers as it already holds, and one without earlier papers with none. */
  lemma SeedLoadOf(existing: seq<(string, seq<string>)>, rid: string)
    requires DistinctKeys(existing)
    ensures Get(SeedLoad(existing), rid) == |PapersOf(existing, rid)|
  {
    if rid in Keys(existing) {
      var j := IndexOfKey(existing, rid);
      LookupAt(existing, j);
      SeedLoadAt(existing, j);
    } else {
      SeedLoadAbsent(existing, rid);
    }
  }

  /** The score dictionary of the reviewers available for a paper under the given load. */
  function Scores(p: Paper, reviewers: seq<Reviewer>, load: map<string, int>): (scores: seq<(string, real)>)
    ensures DistinctKeys(scores)
  {
    AvailableFound(p, reviewers, load);
    RankScores(p, Available(p, reviewers, load), reviewers, load)
  }

  /** The top two reviewers chosen for a paper with the given load, in score order. */
  function Chosen(p: Paper, reviewers: seq<Reviewer>, load: map<string, int>): seq<string>
  {
    IdsOf(TopTwo(Scores(p, reviewers, load)))
  }

  /** One turn of the main loop: skip a paper with fewer than two available reviewers, else commit the top two. */
  function PaperStep(state: (seq<(string, seq<string>)>, map<string, int>), p: Paper, reviewers: seq<Reviewer>)
    : (seq<(string, seq<string>)>, map<string, int>)
    requires DistinctKeys(state.0)
  {
    if |Available(p, reviewers, state.1)| < Wanted then state
    else Commit(state.0, state.1, p.id, Chosen(p, reviewers, state.1))
  }

  /** The main loop over the papers, in order, from a given state. */
  function RunPapers(papers: seq<Paper>, reviewers: seq<Reviewer>, state: (seq<(string, seq<string>)>, map<string, int>))
    : (r: (seq<(string, seq<string>)>, map<string, int>))
    requires DistinctKeys(state.0)
    ensures DistinctKeys(r.0)
  {
    if papers == [] then state
    else PaperStep(RunPapers(papers[..|papers| - 1], reviewers, state), papers[|papers| - 1], reviewers)
  }

  /** The main loop: new assignments and the load ledger, seeded with the earlier assignments. */
  method AssignV2(papers: seq<Paper>, reviewers: seq<Reviewer>, existing: seq<(string, seq<string>)>)
    returns (newAssignments: seq<(string, seq<string>)>, currentLoad: map<string, int>)
    ensures (newAssignments, currentLoad) == RunPapers(papers, reviewers, ([], SeedLoad(existing)))
  {
    currentLoad := SeedLedger(existing);
    newAssignments := [];
    ghost var seed := currentLoad;
    for i := 0 to |papers|
      invariant DistinctKeys(newAssignments)
      invariant (newAssignments, currentLoad) == RunPapers(papers[..i], reviewers, ([], seed))
    {
      assert papers[..i + 1][..i] == papers[..i];
      var paper := papers[i];
      var available := GetAvailable(paper, reviewers, currentLoad);
      if |available| < Wanted {
        continue;
      }
      AvailableFound(paper, reviewers, currentLoad);
      var scores := Rank(paper, available, reviewers, currentLoad);
      assert scores == Scores(paper, reviewers, currentLoad);
      var top2 := TopTwo(scores);
      newAssignments, currentLoad := CommitPicks(newAssignments, currentLoad, paper.id, IdsOf(top2));
    }
    assert papers[..|papers|] == papers;
  }

  /** For distinct reviewer keys, the scores hold one entry per available reviewer, in dictionary order. */
  lemma ScoresFresh(p: Paper, reviewers: seq<Reviewer>, load: map<string, int>)
    requires Distinct(ReviewerIds(reviewers))
    ensures Keys(Scores(p, reviewers, load)) == Available(p, reviewers, load)
  {
    AvailableFound(p, reviewers, load);
    AvailableDistinct(p, reviewers, load);
    RankScoresFresh(p, Available(p, reviewers, load), reviewers, load);
  }

  /** With at least two available reviewers, exactly two distinct ones are chosen. */
  lemma ChosenTwo(p: Paper, reviewers: seq<Reviewer>, load: map<string, int>)
    requires Distinct(ReviewerIds(reviewers))
    requires |Available(p, reviewers, load)| >= Wanted
    ensures |Chosen(p, reviewers, load)| == Wanted && Distinct(Chosen(p, reviewers, load))
  {
    var scores := Scores(p, reviewers, load);
    ScoresFresh(p, reviewers, load);
    TopTwoFacts(scores);
    TopTwoDistinct(scores);
    var top := TopTwo(scores);
    var chosen := Chosen(p, reviewers, load);
    forall a, b | 0 <= a < b < |chosen|
      ensures chosen[a] != chosen[b]
    {
      assert chosen[a] == top[a].0 && chosen[b] == top[b].0;
    }
  }

  /** Every chosen reviewer is available. */
  lemma ChosenAvailable(p: Paper, reviewers: seq<Reviewer>, load: map<string, int>)
    requires Distinct(ReviewerIds(reviewers))
    ensures forall rid :: rid in Chosen(p, reviewers, load) ==> rid in Available(p, reviewers, load)
  {
    var scores := Scores(p, reviewers, load);
    ScoresFresh(p, reviewers, load);
    TopTwoFacts(scores);
    var top := TopTwo(scores);
    var chosen := Chosen(p, reviewers, load);
    forall rid | rid in chosen
      ensures rid in Available(p, reviewers, load)
    {
      var k :| 0 <= k < |chosen| && chosen[k] == rid;
      assert top[k] in scores;
      var j :| 0 <= j < |scores| && scores[j] == top[k];
      assert Keys(scores)[j] == rid;
    }
  }

  /** No available reviewer left out scores above a chosen one. */
  lemma ChosenBest(p: Paper, reviewers: seq<Reviewer>, load: map<string, int>)
    requires Distinct(ReviewerIds(reviewers))
    ensures forall x, k :: x in Scores(p, reviewers, load) && x.0 !in Chosen(p, reviewers, load) && 0 <= k < |Chosen(p, reviewers, load)| ==>
              x.1 <= TopTwo(Scores(p, reviewers, load))[k].1
  {
    var scores := Scores(p, reviewers, load);
    TopTwoBest(scores);
    var top := TopTwo(scores);
    var chosen := Chosen(p, reviewers, load);
    forall x, k | x in scores && x.0 !in chosen && 0 <= k < |chosen|
      ensures x.1 <= top[k].1
    {
      forall j | 0 <= j < |top|
        ensures top[j] != x
      {
        assert chosen[j] == top[j].0;
      }
    }
  }

  /**
    One turn changes nothing for a paper with fewer than two available
    reviewers; otherwise it adds the paper to the lists of exactly the two
    chosen reviewers and raises their loads by one, leaving every other
    reviewer as it was.
   */
  lemma PaperStepEffect(state: (seq<(string, seq<string>)>, map<string, int>), p: Paper, reviewers: seq<Reviewer>, rid: string)
    requires DistinctKeys(state.0) && Distinct(ReviewerIds(reviewers))
    ensures |Available(p, reviewers, state.1)| < Wanted ==> PaperStep(state, p, reviewers) == state
    ensures |Available(p, reviewers, state.1)| >= Wanted ==>
              var chosen := Chosen(p, reviewers, state.1);
              && PapersOf(PaperStep(state, p, reviewers).0, rid) == PapersOf(state.0, rid) + (if rid in chosen then [p.id] else [])
              && Get(PaperStep(state, p, reviewers).1, rid) == Get(state.1, rid) + (if rid in chosen then 1 else 0)
  {
    if |Available(p, reviewers, state.1)| >= Wanted {
      ChosenTwo(p, reviewers, state.1);
      CommitPapers(state.0, state.1, p.id, Chosen(p, reviewers, state.1), rid);
      CommitLoad(state.0, state.1, p.id, Chosen(p, reviewers, state.1), rid);
    }
  }

  /** A turn either leaves a capped reviewer's load alone or leaves it within the limit. */
  lemma PaperStepCapacity(state: (seq<(string, seq<string>)>, map<string, int>), p: Paper, reviewers: seq<Reviewer>, i: nat)
    requires DistinctKeys(state.0) && Distinct(ReviewerIds(reviewers))
    requires i < |reviewers| && reviewers[i].maxPapers > 0
    ensures var after := Get(PaperStep(state, p, reviewers).1, reviewers[i].id);
            after == Get(state.1, reviewers[i].id) || after <= reviewers[i].maxPapers
  {
    var r := reviewers[i];
    PaperStepEffect(state, p, reviewers, r.id);
    if |Available(p, reviewers, state.1)| >= Wanted && r.id in Chosen(p, reviewers, state.1) {
      ChosenAvailable(p, reviewers, state.1);
      AvailableMembers(p, reviewers, state.1, r.id);
      var j :| 0 <= j < |reviewers| && reviewers[j].id == r.id && IsAvailable(p, reviewers[j], state.1);
      assert ReviewerIds(reviewers)[j] == ReviewerIds(reviewers)[i];
    }
  }

  /**
    New commits never take a capped reviewer past its limit: its final load
    is at most the larger of its starting load and its limit.
   */
  lemma {:induction false} RunCapacity(papers: seq<Paper>, reviewers: seq<Reviewer>, state: (seq<(string, seq<string>)>, map<string, int>), i: nat)
    requires DistinctKeys(state.0) && Distinct(ReviewerIds(reviewers))
    requires i < |reviewers| && reviewers[i].maxPapers > 0
    ensures Get(RunPapers(papers, reviewers, state).1, reviewers[i].id) <= if Get(state.1, reviewers[i].id) <= reviewers[i].maxPapers then reviewers[i].maxPapers else Get(state.1, reviewers[i].id)
    decreases |papers|
  {
    if papers != [] {
      RunCapacity(papers[..|papers| - 1], reviewers, state, i);
      PaperStepCapacity(RunPapers(papers[..|papers| - 1], reviewers, state), papers[|papers| - 1], reviewers, i);
    }
  }

  /**
    The ledger only counts commits: each reviewer's load rises by exactly the
    number of papers newly added to its list, and so never falls.
   */
  lemma {:induction false} RunLedger(papers: seq<Paper>, reviewers: seq<Reviewer>, state: (seq<(string, seq<string>)>, map<string, int>), rid: string)
    requires DistinctKeys(state.0) && Distinct(ReviewerIds(reviewers))
    ensures Get(RunPapers(papers, reviewers, state).1, rid) == Get(state.1, rid) + |PapersOf(RunPapers(papers, reviewers, state).0, rid)| - |PapersOf(state.0, rid)|
    ensures |PapersOf(RunPapers(papers, reviewers, state).0, rid)| >= |PapersOf(state.0, rid)|
    decreases |papers|
  {
    if papers != [] {
      var prev := RunPapers(papers[..|papers| - 1], reviewers, state);
      RunLedger(papers[..|papers| - 1], reviewers, state, rid);
      PaperStepEffect(prev, papers[|papers| - 1], reviewers, rid);
    }
  }

  /** From the seeded ledger: a reviewer's final load is its earlier papers plus its new ones. */
  lemma SeededLedger(papers: seq<Paper>, reviewers: seq<Reviewer>, existing: seq<(string, seq<string>)>, rid: string)
    requires DistinctKeys(existing) && Distinct(ReviewerIds(reviewers))
    ensures Get(RunPapers(papers, reviewers, ([], SeedLoad(existing))).1, rid) ==
              |PapersOf(existing, rid)| + |PapersOf(RunPapers(papers, reviewers, ([], SeedLoad(existing))).0, rid)|
  {
    SeedLoadOf(existing, rid);
    RunLedger(papers, reviewers, ([], SeedLoad(existing)), rid);
  }

  // ---------------------------------------------------------------------------
  // Method classification by counting method words
  // ---------------------------------------------------------------------------

  /** The quantitative method words of `classify_method_simple`. */
  const QuantWords: seq<string> := ["regression", "econometric", "statistical", "empirical",
                                    "quantitative", "panel data", "survey", "sample", "dataset",
                                    "variables", "coefficient", "significant", "hypothesis"]

  /** The qualitative method words of `classify_method_simple`. */
  const QualWords: seq<string> := ["case study", "interview", "ethnograph", "qualitative",
                                   "grounded theory", "narrative", "interpretive", "phenomeno"]

  /** The text searched: title, abstract and keyword field, space-separated and lower-cased. */
  function ClassifierText(p: Paper): string
  {
    Lower(p.title + " " + p.abstractText + " " + p.keywordsField)
  }

  /** The label the two word counts give. */
  function LabelOf(quant: nat, qual: nat): string
  {
    if quant > 2 && quant > qual then "Quantitative"
    else if qual > 1 && qual > quant then "Qualitative"
    else if quant > 0 && qual > 0 then "Mixed"
    else "Conceptual"
  }

  /** `classify_method_simple` of this script; the pairwise script has its own, with a different label table (`LabelOf`). */
  function ClassifyMethodSimple(p: Paper): (m: string)
    ensures m in {"Quantitative", "Qualitative", "Mixed", "Conceptual"}
  {
    var text := ClassifierText(p);
    LabelOf(CountHits(QuantWords, text), CountHits(QualWords, text))
  }

  /**
    The labels in terms of the two counts: Quantitative exactly when more
    than two quantitative words occur and they outnumber the qualitative
    ones; otherwise Qualitative exactly when more than one qualitative word
    occurs and they outnumber the quantitative ones; otherwise Mixed exactly
    when both kinds occur; otherwise Conceptual.
   */
  lemma ClassifyLabels(p: Paper)
    ensures var quant := CountHits(QuantWords, ClassifierText(p));
            var qual := CountHits(QualWords, ClassifierText(p));
            var m := ClassifyMethodSimple(p);
            && (m == "Quantitative" <==> quant > 2 && quant > qual)
            && (m == "Qualitative" <==> !(quant > 2 && quant > qual) && qual > 1 && qual > quant)
            && (m == "Mixed" <==> !(quant > 2 && quant > qual) && !(qual > 1 && qual > quant) && quant > 0 && qual > 0)
            && (m == "Conceptual" <==> !(quant > 2 && quant > qual) && !(qual > 1 && qual > quant) && !(quant > 0 && qual > 0))
  {
  }

  /**
    What the text must hold for each label: a quantitative word for
    Quantitative, a qualitative word for Qualitative, one of each for Mixed;
    and a text with no method word at all is Conceptual.
   */
  lemma ClassifyEvidence(p: Paper)
    ensures ClassifyMethodSimple(p) == "Quantitative" ==> exists i :: 0 <= i < |QuantWords| && Contains(ClassifierText(p), QuantWords[i])
    ensures ClassifyMethodSimple(p) == "Qualitative" ==> exists i :: 0 <= i < |QualWords| && Contains(ClassifierText(p), QualWords[i])
    ensures ClassifyMethodSimple(p) == "Mixed" ==>
              (exists i :: 0 <= i < |QuantWords| && Contains(ClassifierText(p), QuantWords[i])) &&
              (exists i :: 0 <= i < |QualWords| && Contains(ClassifierText(p), QualWords[i]))
    ensures (forall i :: 0 <= i < |QuantWords| ==> !Contains(ClassifierText(p), QuantWords[i])) &&
            (forall i :: 0 <= i < |QualWords| ==> !Contains(ClassifierText(p), QualWords[i])) ==>
              ClassifyMethodSimple(p) == "Conceptual"
  {
    CountHitsPositive(QuantWords, ClassifierText(p));
    CountHitsPositive(QualWords, ClassifierText(p));
  }

  /** Phase 1: each paper's method becomes its classification. */
  method ClassifyPapers(papers: seq<Paper>) returns (classified: seq<Paper>)
    ensures |classified| == |papers|
    ensures forall k :: 0 <= k < |papers| ==> classified[k] == papers[k].(researchMethod := Some(ClassifyMethodSimple(papers[k])))
  {
    classified := [];
    for k := 0 to |papers|
      invariant |classified| == k
      invariant forall j :: 0 <= j < k ==> classified[j] == papers[j].(researchMethod := Some(ClassifyMethodSimple(papers[j])))
    {
      var paper := papers[k];
      classified := classified + [paper.(researchMethod := Some(ClassifyMethodSimple(paper)))];
    }
  }

  /** The papers after phase 1. */
  function Classified(papers: seq<Paper>): (r: seq<Paper>)
    ensures |r| == |papers|
  {
    seq(|papers|, k requires 0 <= k < |papers| => papers[k].(researchMethod := Some(ClassifyMethodSimple(papers[k]))))
  }

  // ---------------------------------------------------------------------------
  // The output rows
  // ---------------------------------------------------------------------------

  /** One output row: paper id, title, method and the first two reviewer names. */
  datatype Row = Row(paperId: string, title: string, researchMethod: string, reviewer1: string, reviewer2: string)

  /** `reviewers.get(rid).name` for every stored key. */
  function NameMap(reviewers: seq<Reviewer>): map<string, string>
  {
    if reviewers == [] then map[]
    else
      var r := reviewers[|reviewers| - 1];
      NameMap(reviewers[..|reviewers| - 1])[r.id := r.name]
  }

  /** With distinct keys, the name map sends each reviewer's key to its name, and knows no other key. */
  lemma {:induction false} NameMapOf(reviewers: seq<Reviewer>, i: nat)
    requires Distinct(ReviewerIds(reviewers)) && i < |reviewers|
    ensures reviewers[i].id in NameMap(reviewers) && NameMap(reviewers)[reviewers[i].id] == reviewers[i].name
    decreases |reviewers|
  {
    var init := reviewers[..|reviewers| - 1];
    if i < |init| {
      assert ReviewerIds(reviewers)[i] != ReviewerIds(reviewers)[|reviewers| - 1];
      forall a, b | 0 <= a < b < |init|
        ensures ReviewerIds(init)[a] != ReviewerIds(init)[b]
      {
        assert ReviewerIds(reviewers)[a] != ReviewerIds(reviewers)[b];
      }
      assert init[i] == reviewers[i];
      NameMapOf(init, i);
    }
  }

  lemma {:induction false} NameMapKeys(reviewers: seq<Reviewer>)
    ensures NameMap(reviewers).Keys == set i | 0 <= i < |reviewers| :: reviewers[i].id
    decreases |reviewers|
  {
    if reviewers != [] {
      var init := reviewers[..|reviewers| - 1];
      NameMapKeys(init);
      assert forall i :: 0 <= i < |init| ==> init[i] == reviewers[i];
    }
  }

  /** The method cell: `paper.method if paper.method else ''`. */
  function MethodCell(m: Option<string>): string
  {
    if m.Some? then m.value else ""
  }

  /** The row of one paper, from the inverted assignments. */
  function PaperRow(p: Paper, pa: map<string, seq<string>>): Row
  {
    var names := NamesFor(pa, p.id);
    Row(p.id, Take(p.title, 60), MethodCell(p.researchMethod),
        if |names| > 0 then names[0] else "", if |names| > 1 then names[1] else "")
  }

  /** `sorted(papers, key=lambda p: p.id)`. */
  function SortedById(papers: seq<Paper>): seq<Paper>
  {
    SortBy(papers, ByText(PaperIds(papers)))
  }

  /** The ids of the papers, in order (over this script's own `Paper` record). */
  function PaperIds(papers: seq<Paper>): (ids: seq<string>)
    ensures |ids| == |papers| && forall i :: 0 <= i < |papers| ==> ids[i] == papers[i].id
  {
    seq(|papers|, i requires 0 <= i < |papers| => papers[i].id)
  }

  /** The data rows of `save_assignments`. */
  function OutputRows(assign: seq<(string, seq<string>)>, papers: seq<Paper>, reviewers: seq<Reviewer>): (rows: seq<Row>)
    ensures |rows| == |papers|
  {
    var pa := Invert(assign, NameMap(reviewers));
    var sorted := SortedById(papers);
    seq(|sorted|, k requires 0 <= k < |sorted| => PaperRow(sorted[k], pa))
  }

  /** `save_assignments` without the file: invert the assignments, then one row per paper in id order. */
  method SaveAssignments(assign: seq<(string, seq<string>)>, papers: seq<Paper>, reviewers: seq<Reviewer>) returns (rows: seq<Row>)
    ensures rows == OutputRows(assign, papers, reviewers)
  {
    var pa := InvertAssignments(assign, NameMap(reviewers));
    var sorted := SortedById(papers);
    rows := [];
    for k := 0 to |sorted|
      invariant rows == OutputRows(assign, papers, reviewers)[..k]
    {
      rows := rows + [PaperRow(sorted[k], pa)];
    }
  }

  /** The papers in id order: a permutation of the input, ids non-decreasing, equal ids in input order. */
  lemma SortedByIdFacts(papers: seq<Paper>)
    ensures multiset(SortedById(papers)) == multiset(papers)
    ensures forall a, b :: 0 <= a < b < |papers| ==> !LexLess(SortedById(papers)[b].id, SortedById(papers)[a].id)
    ensures forall a, b :: 0 <= a < b < |papers| && SortedById(papers)[a].id == SortedById(papers)[b].id ==>
              StableOrder(ByText(PaperIds(papers)))[a] < StableOrder(ByText(PaperIds(papers)))[b]
  {
    var keys := ByText(PaperIds(papers));
    var order := StableOrder(keys);
    SortByPermutation(papers, keys);
    StableOrderSorted(keys);
    forall a, b | 0 <= a < b < |papers|
      ensures !LexLess(SortedById(papers)[b].id, SortedById(papers)[a].id)
      ensures SortedById(papers)[a].id == SortedById(papers)[b].id ==> order[a] < order[b]
    {
      assert !KeyLess(keys[order[b]], keys[order[a]]);
      assert keys[order[a]] == Text(SortedById(papers)[a].id) && keys[order[b]] == Text(SortedById(papers)[b].id);
    }
  }

  /** Row `k` shows the `k`-th paper in id order, its title cut to 60 characters. */
  lemma OutputRowsOrder(assign: seq<(string, seq<string>)>, papers: seq<Paper>, reviewers: seq<Reviewer>, k: nat)
    requires k < |papers|
    ensures var row := OutputRows(assign, papers, reviewers)[k];
            && row.paperId == SortedById(papers)[k].id
            && |row.title| <= 60
            && row.title == Take(SortedById(papers)[k].title, 60)
  {
  }

  /** `n` is the name of a reviewer of the assignments that holds paper `pid`. */
  ghost predicate AssignedName(assign: seq<(string, seq<string>)>, reviewers: seq<Reviewer>, pid: string, n: string)
  {
    exists i :: 0 <= i < |assign| && assign[i].0 in NameMap(reviewers) && NameMap(reviewers)[assign[i].0] == n && pid in assign[i].1
  }

  /** Every name listed for a paper by the inversion is an assigned name for it. */
  lemma NamesForAssigned(assign: seq<(string, seq<string>)>, reviewers: seq<Reviewer>, pid: string, j: nat)
    requires j < |NamesFor(Invert(assign, NameMap(reviewers)), pid)|
    ensures AssignedName(assign, reviewers, pid, NamesFor(Invert(assign, NameMap(reviewers)), pid)[j])
  {
    var names := NamesFor(Invert(assign, NameMap(reviewers)), pid);
    assert names[j] in names;
    InvertMembers(assign, NameMap(reviewers), pid, names[j]);
  }

  /**
    A reviewer cell that is not blank names a stored reviewer that holds the
    paper; a paper no stored reviewer holds has both cells blank.
   */
  lemma OutputRowNames(assign: seq<(string, seq<string>)>, papers: seq<Paper>, reviewers: seq<Reviewer>, k: nat)
    requires k < |papers|
    ensures var row := OutputRows(assign, papers, reviewers)[k];
            && (row.reviewer1 != "" ==> AssignedName(assign, reviewers, row.paperId, row.reviewer1))
            && (row.reviewer2 != "" ==> AssignedName(assign, reviewers, row.paperId, row.reviewer2))
            && ((forall n :: !AssignedName(assign, reviewers, row.paperId, n)) ==> row.reviewer1 == "" && row.reviewer2 == "")
  {
    var sorted := SortedById(papers);
    var pa := Invert(assign, NameMap(reviewers));
    var row := OutputRows(assign, papers, reviewers)[k];
    assert row == PaperRow(sorted[k], pa);
    var pid := sorted[k].id;
    var names := NamesFor(pa, pid);
    assert row.paperId == pid;
    assert row.reviewer1 == if |names| > 0 then names[0] else "";
    assert row.reviewer2 == if |names| > 1 then names[1] else "";
    if |names| > 0 {
      NamesForAssigned(assign, reviewers, pid, 0);
    }
    if |names| > 1 {
      NamesForAssigned(assign, reviewers, pid, 1);
    }
  }

  // ---------------------------------------------------------------------------
  // The whole run
  // ---------------------------------------------------------------------------

  /** The new assignments and ledger after phases 1 and 2. */
  function AllocationV2(papers: seq<Paper>, reviewers: seq<Reviewer>, existing: seq<(string, seq<string>)>)
    : (seq<(string, seq<string>)>, map<string, int>)
  {
    RunPapers(Classified(papers), reviewers, ([], SeedLoad(existing)))
  }

  /** `main` without the I/O: classify, seed the ledger, assign, and build the rows. */
  method KeywordAssign(papers: seq<Paper>, reviewers: seq<Reviewer>, existing: seq<(string, seq<string>)>) returns (rows: Option<seq<Row>>)
    ensures reviewers == [] <==> rows == None
    ensures reviewers != [] ==> rows == Some(OutputRows(AllocationV2(papers, reviewers, existing).0, Classified(papers), reviewers))
  {
    if reviewers == [] {
      return None;
    }
    var classified := ClassifyPapers(papers);
    assert classified == Classified(papers);
    var newAssignments, currentLoad := AssignV2(classified, reviewers, existing);
    var table := SaveAssignments(newAssignments, classified, reviewers);
    rows := Some(table);
  }
}
