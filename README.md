# Reviewer allocation for a strategy conference, in Dafny

This project models the reviewer-allocation engine of a conference paper
assignment tool, and the text-cleaning helpers around it.

The engine appears in four scripts. Each has its own eligibility table,
capacity ledger and commit loop:

- **Scarcity-first greedy** (`assign_reviewers.py`, module `AssignReviewers`). Papers with the fewest eligible reviewers go first. Each paper takes up to two reviewers ranked by a load-penalised score under a hard capacity. It then falls back to the least-loaded eligible reviewers.
- **Global score-sorted greedy** (`assign_reviewers_real.py`, module `AssignReviewersReal`). A keyword pre-filter keeps four candidates per paper. A model scores each candidate pair. All scored pairs are sorted once, and each pair is committed while its paper has fewer than two reviewers and its reviewer is below `ceil(2P/R) + 1`.
- **Per-paper top-2 by keyword similarity** (`assign_reviewers_v2.py`, module `AssignReviewersV2`). The ledger is seeded from earlier assignments.
- **Per-paper top-2 by pairwise model score** (`assign_reviewers_pairwise.py`, module `AssignReviewersPairwise`).

The shared per-paper steps are in `PerPaper`: rank the scored reviewers, take the top two, commit, and invert the assignment map for the report. `Variants` sets the four eligibility tables side by side.

The text helpers:

- the keyword parser and validator of `fix_keywords.py` (`FixKeywords`);
- the keyword cleaner of `clean_keywords.py` (`CleanKeywords`);
- the sensitive-term extraction of `anonymize_pdfs_final.py` (`AnonymizePdfs`);
- the title extraction and catalogue tagging of `process_papers.py` (`ProcessPapers`).

Python's own behaviour is modelled in helper modules:

- `Text` covers the string methods: `strip` over the `str.isspace` set, `split`, `lower`/`upper`, `replace`, `in`, slicing that clamps, and `startswith`.
- `Sorting` covers `sorted`/`list.sort`, which are stable, with `reverse=True`.
- `Common` covers dictionaries with insertion order. They are sequences of key/value pairs; a missing `defaultdict(int)` entry reads as 0.
- `Patterns` covers the regular expressions that several scripts share.

How the source's form is kept:

- Loops that update state are Dafny methods with loop invariants. Each is proved equal to a specification function over its inputs or old state, and the properties are lemmas about those functions.
- Pure parsing code is functions and lemmas.
- Regular expressions are modelled as leftmost scans. Greedy runs give characters back where the pattern needs that, as Python's backtracking does.
- Language-model replies, database records and page text are parameters.

The four scripts each implement a different eligibility table, and the model follows each script:

- in `assign_reviewers.py`, a Qualitative paper refuses "Quant/Mixed" reviewers;
- in `assign_reviewers_real.py`, a Conceptual paper refuses Quantitative reviewers.

## Model

| member | source | states |
|---|---|---|
| AssignReviewers.EligibleNames | assign_reviewers.py:179-200 | A table name is in the eligible list exactly when its method passes the filter. A Quantitative paper takes Quantitative, Quant/Mixed and Mixed reviewers. A Qualitative paper takes Qualitative and Mixed. Any other paper takes everyone. The list is never longer than the table. |
| AssignReviewers.GetEligibleReviewers | assign_reviewers.py:179-200 | The append loop yields the eligible names in table order. |
| AssignReviewers.EligibleNamesDistinct | assign_reviewers.py:183-198 | A table without repeated names gives a list without repeats. |
| AssignReviewers.ExtractMethod | assign_reviewers.py:165-176 | The result is always one of the four labels. Quantitative exactly when QUANTITATIVE occurs in the upper-cased reply. Otherwise Qualitative exactly when QUALITATIVE occurs. Conceptual exactly when CONCEPTUAL occurs and none of the other three words do. Mixed in every other case, the unknown reply included. |
| AssignReviewers.MethodWordsSurviveStrip | assign_reviewers.py:165 | Stripping the reply never changes which method words it contains. |
| AssignReviewers.FirstMentionAt | assign_reviewers.py:245-249 | A line is credited to the first eligible reviewer, in list order, whose lower-cased name it contains. |
| AssignReviewers.FirstMentionNone | assign_reviewers.py:245-249 | A line naming no eligible reviewer credits nobody. |
| AssignReviewers.RescoreLookup | assign_reviewers.py:248 | `scores[reviewer] = 5 - i` changes only that reviewer's score. |
| AssignReviewers.RankedLines | assign_reviewers.py:241-243 | At most five reply lines are read. |
| AssignReviewers.RankReviewersForPaper | assign_reviewers.py:239-256 | The two loops compute the rank-score dictionary of the reply. |
| AssignReviewers.FirstMentionIndex | assign_reviewers.py:245-249 | The inner loop stops at the first eligible reviewer the line names, and finds none exactly when the line has no first mention. |
| AssignReviewers.RankScoresKeys | assign_reviewers.py:240-256 | The score dictionary has exactly the eligible reviewers as keys. |
| AssignReviewers.RankScoreOf | assign_reviewers.py:240-256 | Each eligible reviewer's score is the rank score of the last of the first five lines crediting it: 5 for line 1 down to 1 for line 5. It is 0 when no such line credits it, so the score is in 0..5. |
| AssignReviewers.LaterLineOverrides | assign_reviewers.py:243-249 | Once line `j` credits a reviewer, its score is at most that line's score whatever earlier lines said, so a later line overrides an earlier one. |
| AssignReviewers.CalculateCapacity | assign_reviewers.py:259-265 | For at least one reviewer, the capacity is at least 5 and covers two reviews per paper: `cap * R > 2P`. It is 5 or the smallest such value. |
| AssignReviewers.EffectiveScore | assign_reviewers.py:292-297 | The load penalty lies between 0 and 2 points for a load within capacity, and an unloaded reviewer keeps its base score. |
| AssignReviewers.RankedCandidatesMembers | assign_reviewers.py:300-304 | Ranking by effective score lists every scored reviewer exactly once. |
| AssignReviewers.FirstPass | assign_reviewers.py:306-313 | The first pass extends the taken list to at most two, with candidates only. Each load rises by the times its reviewer was taken. With loads within capacity before, they stay within capacity. |
| AssignReviewers.FirstPassDistinct | assign_reviewers.py:306-313 | Distinct candidates not already taken are never taken twice. |
| AssignReviewers.Fallback | assign_reviewers.py:315-325 | The fallback extends the list to at most two, from the eligible reviewers only, keeping loads accounted and within capacity. |
| AssignReviewers.FallbackDistinct | assign_reviewers.py:320-323 | The `not in assigned` test means the fallback never takes a reviewer twice. |
| AssignReviewers.FallbackShortfall | assign_reviewers.py:315-325 | When a paper ends with fewer than two reviewers, every eligible reviewer it lacks is at full capacity. |
| AssignReviewers.PaperPicksFacts | assign_reviewers.py:287-327 | One paper gets at most two distinct reviewers, each scored or eligible. A shortfall happens only when every missing eligible reviewer is full. Exactly the picked reviewers' loads rise by one, and within capacity. |
| AssignReviewers.FirstPassLoop | assign_reviewers.py:306-313 | The loop with `break` computes the first pass. |
| AssignReviewers.FallbackLoop | assign_reviewers.py:316-325 | The loop with `break` computes the fallback. |
| AssignReviewers.AssignPaper | assign_reviewers.py:287-327 | One paper's turn is the first pass, then the fallback if the paper is short. |
| AssignReviewers.PaperOrderSorted | assign_reviewers.py:285 | The processing order is a permutation of the papers in non-decreasing eligible-reviewer count, and ties keep input order. |
| AssignReviewers.PaperOrderKeeps | assign_reviewers.py:285 | Reordering keeps the papers, their score dictionaries and their distinct ids. |
| AssignReviewers.RunInvariant | assign_reviewers.py:287-327 | The commit loop keeps at most two distinct reviewers per entry and every load within capacity. |
| AssignReviewers.RunKeys | assign_reviewers.py:327 | Every processed paper id gets an entry, and no other key appears. |
| AssignReviewers.RunKeepsEntry | assign_reviewers.py:327 | A paper's entry is untouched by papers with other ids. |
| AssignReviewers.RunOutcome | assign_reviewers.py:287-327 | Every paper's entry satisfies the per-paper outcome against the final ledger. |
| AssignReviewers.RunLoadsGrow | assign_reviewers.py:313 | Loads only grow. |
| AssignReviewers.RunLoads | assign_reviewers.py:311-327 | With distinct ids, each final load is the number of entries that name the reviewer. |
| AssignReviewers.AllocationShape | assign_reviewers.py:268-332 | The result has at most two distinct reviewers per paper, with no load above capacity. Its keys are exactly the paper ids. |
| AssignReviewers.AllocationAccounting | assign_reviewers.py:268-332 | With distinct ids, the returned ledger counts each reviewer's papers, and every paper's entry satisfies the per-paper outcome. |
| AssignReviewers.Allocate | assign_reviewers.py:268-332 | `assign_reviewers` computes the allocation: papers in processing order, each given its picks, with one ledger carried through. |
| AssignReviewersReal.NewPaper | assign_reviewers_real.py:165-192 | A paper's keyword set holds only lower-case terms longer than two characters. |
| AssignReviewersReal.ProfileTermsFrom | assign_reviewers_real.py:217-223 | A profile term is a lower-case, whitespace-free word longer than three characters of some topic or theory. |
| AssignReviewersReal.AddProfileTerms | assign_reviewers_real.py:218-220 | The nested loop adds exactly the profile terms of its items. |
| AssignReviewersReal.ReviewerKeywords | assign_reviewers_real.py:217-223 | A reviewer's keyword set is the terms of its topics and of its theories. |
| AssignReviewersReal.MethodMatchesExactly | assign_reviewers_real.py:372-387 | A "mixed" reviewer takes everything. Otherwise a "quantitative" reviewer takes only quantitative or mixed papers, and a "qualitative" reviewer only qualitative, mixed or conceptual ones. Any other reviewer takes everything. |
| AssignReviewersReal.MixedPaperOpenToAll | assign_reviewers_real.py:372-387 | A Mixed paper is open to every reviewer. |
| AssignReviewersReal.ConceptualExcludesQuantitative | assign_reviewers_real.py:380-381 | A Conceptual paper refuses exactly the quantitative reviewers without "mixed". |
| AssignReviewersReal.ParseScore | assign_reviewers_real.py:332-342 | The score is never negative, and it is 40 unless the upper-cased reply contains "SCORE:". |
| AssignReviewersReal.ParseScoreOf | assign_reviewers_real.py:337-338 | The score is the whole digit run of the leftmost `SCORE:\s*\d+` match, ignoring case, and it is not clamped. |
| AssignReviewersReal.ParseScoreNoMatch | assign_reviewers_real.py:335-338 | With the marker present but no digits after it, the score stays 40. |
| AssignReviewersReal.ParseScoreUnclamped | assign_reviewers_real.py:338 | "Score: 250" gives 250. |
| AssignReviewersReal.ClassifyMethodLlm | assign_reviewers_real.py:361-370 | The result is always one of the four labels. |
| AssignReviewersReal.ClassifyMethodLlmOf | assign_reviewers_real.py:361-370 | The method words of the lower-cased reply decide, in the priority quantitative > qualitative > conceptual > mixed, and stripping is immaterial. Without any of them, the result is Quantitative exactly when the text contains regression, data, sample or empirical, and Conceptual otherwise. |
| AssignReviewersReal.KeywordSimilarity | assign_reviewers_real.py:300-305 | The similarity is never negative, and it is 0 exactly when the two sets share no term. |
| AssignReviewersReal.CandidatesFrom | assign_reviewers_real.py:428-432 | Every candidate is a method-compatible reviewer carrying its own similarity. |
| AssignReviewersReal.SelectCandidates | assign_reviewers_real.py:427-436 | The loop, sort and cut compute the paper's top candidates. |
| AssignReviewersReal.TopCandidatesEligible | assign_reviewers_real.py:427-436 | At most four candidates are kept, each one method-compatible. |
| AssignReviewersReal.RankedByKeywordsSorted | assign_reviewers_real.py:435 | The ranking is a permutation of the candidates in non-increasing similarity, and ties keep reviewer order. |
| AssignReviewersReal.TopCandidatesBest | assign_reviewers_real.py:435-436 | No candidate that is cut off has a higher similarity than a kept one. |
| AssignReviewersReal.ScoresLogUnscored | assign_reviewers_real.py:444 | A pair never scored reads as 0. |
| AssignReviewersReal.ScoresLogLast | assign_reviewers_real.py:444 | A scored pair reads as its last written score. |
| AssignReviewersReal.ScorePaper | assign_reviewers_real.py:441-444 | One paper's kept candidates are scored, appended to `all_scores` and written to the log. |
| AssignReviewersReal.ScorePapers | assign_reviewers_real.py:424-444 | Phase 2 collects every paper's scored pairs, and the log agrees with them. |
| AssignReviewersReal.AllScoresShortListed | assign_reviewers_real.py:424-444 | Every scored pair was short-listed for its paper. |
| AssignReviewersReal.AvgLoad | assign_reviewers_real.py:454 | `ceil(2P/R)` is the smallest share that covers two reviews per paper. It needs at least one reviewer. |
| AssignReviewersReal.GlobalOrderSorted | assign_reviewers_real.py:453 | The visiting order is a permutation of the scored pairs with non-increasing scores. |
| AssignReviewersReal.GlobalAssign | assign_reviewers_real.py:449-461 | The commit loop over the sorted pairs, with its two `continue` tests, computes the greedy ledger. |
| AssignReviewersReal.GreedyAccounting | assign_reviewers_real.py:456-461 | Each paper's list is its committed reviewers in order, and each load counts that reviewer's committed pairs. |
| AssignReviewersReal.GreedyBounded | assign_reviewers_real.py:457-458 | No paper gets more than two reviewers, and no reviewer more than `avg_load + 1`. |
| AssignReviewersReal.GreedyGrows | assign_reviewers_real.py:456-461 | Lists only grow and loads only rise as the loop proceeds. |
| AssignReviewersReal.GreedyMaximal | assign_reviewers_real.py:457-458 | A pair is skipped only when its paper already has two reviewers or its reviewer is at the cap. |
| AssignReviewersReal.GreedyFromPairs | assign_reviewers_real.py:456-460 | Every listed reviewer comes from a scored pair of that paper. |
| AssignReviewersReal.TopIdsDistinct | assign_reviewers_real.py:428-436 | With distinct reviewer ids, a paper's kept candidates name different reviewers. |
| AssignReviewersReal.AllScoresDistinct | assign_reviewers_real.py:424-444 | With distinct paper and reviewer ids, phase 2 scores no (paper, reviewer) pair twice. |
| AssignReviewersReal.GlobalOrderDistinct | assign_reviewers_real.py:453 | Sorting the scored pairs introduces no repeated pair. |
| AssignReviewersReal.GreedyDistinct | assign_reviewers_real.py:456-461 | Over pairs without repeats, the greedy pass never puts a reviewer on a paper twice. |
| AssignReviewersReal.HybridListsDistinct | assign_reviewers_real.py:424-461 | With distinct paper and reviewer ids, no paper's final list names a reviewer twice. |
| AssignReviewersReal.HybridAssignedShortListed | assign_reviewers_real.py:427-461 | Every assigned reviewer was one of its paper's four candidates. It is therefore method-compatible and named in the reviewer dictionary. |
| AssignReviewersReal.ClassifyPapers | assign_reviewers_real.py:415-416 | Phase 1 sets each paper's method to the classification of its reply and changes nothing else. |
| AssignReviewersReal.PaperMapKeys | assign_reviewers_real.py:390 | `{p.id: p}` has an entry for exactly the input ids, each holding a paper with that id. |
| AssignReviewersReal.PaperMapLast | assign_reviewers_real.py:390 | A repeated id maps to the last paper carrying it. |
| AssignReviewersReal.SaveOutput | assign_reviewers_real.py:389-401 | The row loop computes the output rows, one per sorted paper id. |
| AssignReviewersReal.OutputRowsAscending | assign_reviewers_real.py:394 | Rows are in strictly ascending id order. |
| AssignReviewersReal.OutputRowsCover | assign_reviewers_real.py:390-394 | There is one row per input paper id and no other. |
| AssignReviewersReal.OutputRowsPaper | assign_reviewers_real.py:395-401 | Each row shows the paper its id maps to. |
| AssignReviewersReal.OutputRowSlots | assign_reviewers_real.py:396-401 | A row has a reviewer name and logged score exactly where the list reaches that slot, and blank and 0 otherwise. The title is cut to 60 characters. |
| AssignReviewersReal.HybridAssign | assign_reviewers_real.py:403-463 | `main` after loading classifies, scores and assigns, then builds the rows. Every listed reviewer is known, and with distinct paper and reviewer ids no list repeats a reviewer. |
| AssignReviewersV2.NewPaper | assign_reviewers_v2.py:67-105 | A paper's keyword set holds only lower-case terms longer than two characters. |
| AssignReviewersV2.ParseExpertise | assign_reviewers_v2.py:153-179 | The part loop computes the expertise parse. |
| AssignReviewersV2.ExpertiseEmpty | assign_reviewers_v2.py:162-163 | Empty expertise gives ("Mixed", []). |
| AssignReviewersV2.ExpertisePlain | assign_reviewers_v2.py:175-177 | Without a bar character, the keywords are the stripped non-empty comma fields and the method is "Mixed". |
| AssignReviewersV2.LastMethodPartWins | assign_reviewers_v2.py:166-171 | With a bar character, the last `method:` part decides the method. |
| AssignReviewersV2.NoMethodPartMixed | assign_reviewers_v2.py:159-171 | Without a `method:` part the method is "Mixed". |
| AssignReviewersV2.ExpertiseKeywordsClean | assign_reviewers_v2.py:174-177 | No keyword is empty or carries outer whitespace. |
| AssignReviewersV2.BuildKeywordSet | assign_reviewers_v2.py:133-140 | The loop computes the keyword set. |
| AssignReviewersV2.KeywordSetOfFrom | assign_reviewers_v2.py:134-140 | Every term of the set is lower case and is a keyword or one of its long words. |
| AssignReviewersV2.KeywordSetOfHolds | assign_reviewers_v2.py:136-137 | Every keyword, lower-cased, is in the set. |
| AssignReviewersV2.NewReviewer | assign_reviewers_v2.py:118-150 | `from_firebase` builds the reviewer the record describes. |
| AssignReviewersV2.FromFirebaseFacts | assign_reviewers_v2.py:118-150 | The reviewer keeps its key. Its keyword set is lower case and holds every keyword. Parsed keywords are never blank. No limit means 0. |
| AssignReviewersV2.FallbackOnlyWithoutKeywords | assign_reviewers_v2.py:125-131 | The fallback table is used only when the expertise yields no keywords. |
| AssignReviewersV2.MethodMatchesExactly | assign_reviewers_v2.py:242-263 | A "mixed" reviewer takes everything. A qualitative paper needs "qualitative" in the reviewer's label, and a quantitative paper needs "quantitative". Every other paper takes everyone. |
| AssignReviewersV2.QuantMixedTakesQualitative | assign_reviewers_v2.py:248-249 | A "Quant/Mixed" reviewer may take a Qualitative paper. |
| AssignReviewersV2.QuantitativeRefusesQualitative | assign_reviewers_v2.py:252-253 | A "Quantitative" reviewer may not. |
| AssignReviewersV2.KeywordSimilarity | assign_reviewers_v2.py:266-286 | The similarity is in [0, 1], and 0 exactly when the sets share nothing, which includes either set being empty. |
| AssignReviewersV2.GetAvailable | assign_reviewers_v2.py:289-309 | The loop with two `continue`s computes the available list. |
| AssignReviewersV2.AvailableMembers | assign_reviewers_v2.py:297-307 | A key is returned exactly when its reviewer matches the paper's method, with None read as 'Mixed', and has `max_papers == 0` or `load < max_papers`. |
| AssignReviewersV2.AvailableDistinct | assign_reviewers_v2.py:297-307 | No key is returned twice. |
| AssignReviewersV2.Capacity | assign_reviewers_v2.py:329 | The divisor is always positive. |
| AssignReviewersV2.ReviewerScore | assign_reviewers_v2.py:325-333 | The score is at least 0 and at most the keyword similarity. |
| AssignReviewersV2.UncappedAsTen | assign_reviewers_v2.py:329 | An uncapped reviewer is penalised as though its capacity were 10. |
| AssignReviewersV2.Rank | assign_reviewers_v2.py:312-335 | The loop computes the score dictionary. |
| AssignReviewersV2.RankScoresFresh | assign_reviewers_v2.py:321-333 | There is one entry per available key, in order, each its score. |
| AssignReviewersV2.SeedLedger | assign_reviewers_v2.py:423-425 | The seeding loop computes the seed ledger. |
| AssignReviewersV2.SeedLoadOf | assign_reviewers_v2.py:423-425 | Each reviewer starts at the number of papers it already holds. |
| AssignReviewersV2.ChosenTwo | assign_reviewers_v2.py:469-478 | With at least two available reviewers, exactly two distinct ones are chosen. |
| AssignReviewersV2.ChosenAvailable | assign_reviewers_v2.py:466-478 | Every chosen reviewer is available. |
| AssignReviewersV2.ChosenBest | assign_reviewers_v2.py:477-478 | No reviewer left out scores above a chosen one. |
| AssignReviewersV2.PaperStepEffect | assign_reviewers_v2.py:466-487 | A paper with fewer than two available reviewers changes nothing. Otherwise exactly the two chosen reviewers get the paper and one more load each. |
| AssignReviewersV2.RunCapacity | assign_reviewers_v2.py:466-487 | New commits never take a capped reviewer past its limit. |
| AssignReviewersV2.RunLedger | assign_reviewers_v2.py:485-487 | Each load rises by exactly the reviewer's new papers and never falls. |
| AssignReviewersV2.SeededLedger | assign_reviewers_v2.py:423-487 | A final load is the earlier papers plus the new ones. |
| AssignReviewersV2.AssignV2 | assign_reviewers_v2.py:460-487 | The main loop, from the seeded ledger, computes the run over the papers. |
| AssignReviewersV2.ClassifyMethodSimple | assign_reviewers_v2.py:353-374 | The result is always one of the four labels. |
| AssignReviewersV2.ClassifyLabels | assign_reviewers_v2.py:364-374 | Quantitative exactly when `quant > 2` and `quant > qual`. Otherwise Qualitative exactly when `qual > 1` and `qual > quant`. Otherwise Mixed exactly when both counts are positive. Otherwise Conceptual. |
| AssignReviewersV2.ClassifyEvidence | assign_reviewers_v2.py:355-374 | Each label needs a listed word in the text, and a text with neither kind of word is Conceptual. |
| AssignReviewersV2.ClassifyPapers | assign_reviewers_v2.py:446-447 | Each paper's method becomes its classification. |
| AssignReviewersV2.SaveAssignments | assign_reviewers_v2.py:377-402 | The inversion and the row loop compute the output rows. |
| AssignReviewersV2.SortedByIdFacts | assign_reviewers_v2.py:394 | The papers sorted by id are a permutation of the input, with non-decreasing ids and equal ids in input order. |
| AssignReviewersV2.OutputRowsOrder | assign_reviewers_v2.py:394-402 | Row `k` shows the `k`-th paper in id order, its title cut to 60 characters. |
| AssignReviewersV2.OutputRowNames | assign_reviewers_v2.py:395-401 | A non-blank reviewer cell names a stored reviewer holding the paper. |
| AssignReviewersV2.KeywordAssign | assign_reviewers_v2.py:405-509 | `main` without I/O yields no rows exactly when the reviewer dictionary is empty, its early return. Otherwise it classifies, seeds, assigns and builds the rows. |
| AssignReviewersPairwise.ParseExpertise | assign_reviewers_pairwise.py:103-116 | The part loop computes the expertise parse. |
| AssignReviewersPairwise.PartsMethodAsV2 | assign_reviewers_pairwise.py:106-111 | It finds the same method as the keyword script's loop. |
| AssignReviewersPairwise.LastMethodPartWins | assign_reviewers_pairwise.py:108-111 | The last `method:` part decides the method. |
| AssignReviewersPairwise.NoMethodPartMixed | assign_reviewers_pairwise.py:104-111 | The method defaults to "Mixed". |
| AssignReviewersPairwise.ExpertiseFacts | assign_reviewers_pairwise.py:103-116 | Keywords are never empty or unstripped, and without a bar character the method is "Mixed". |
| AssignReviewersPairwise.FromFirebaseSources | assign_reviewers_pairwise.py:79-100 | A non-empty expertise string is parsed. Otherwise a known name takes its fallback entry. Otherwise the reviewer gets ("Mixed", []). A missing limit is 0. |
| AssignReviewersPairwise.Clamp | assign_reviewers_pairwise.py:175 | The clamped score is in [0, 100] and unchanged inside it. |
| AssignReviewersPairwise.ParseScore | assign_reviewers_pairwise.py:167-184 | The score is always in [0, 100]. |
| AssignReviewersPairwise.ParseScoreOf | assign_reviewers_pairwise.py:173-175 | The score is the leftmost match's number, clamped to 100. |
| AssignReviewersPairwise.ParseScoreDefaults | assign_reviewers_pairwise.py:167-175 | The score stays 0 when the upper-cased reply lacks "SCORE:" or when no `SCORE:\s*\d+` match exists. |
| AssignReviewersPairwise.ParseScoreClamped | assign_reviewers_pairwise.py:175 | "Score: 250" gives 100. |
| AssignReviewersPairwise.MethodMatchesAsV2 | assign_reviewers_pairwise.py:222-232 | On present labels it is the keyword script's test. |
| AssignReviewersPairwise.MethodMatchesLenient | assign_reviewers_pairwise.py:222-232 | None inputs are tolerated. A paper that is neither qualitative nor quantitative takes everyone. |
| AssignReviewersPairwise.ClassifyMethodSimple | assign_reviewers_pairwise.py:235-251 | The result is always one of the four labels. |
| AssignReviewersPairwise.ClassifyLabels | assign_reviewers_pairwise.py:242-251 | Quantitative exactly when `quant > 2` and `quant > qual`. Otherwise Qualitative exactly when `qual > 1`. Otherwise Mixed exactly when both counts are positive. Otherwise Conceptual. |
| AssignReviewersPairwise.QualitativeTakesTies | assign_reviewers_pairwise.py:245-251 | Qualitative wins a tie of two or more words of each kind, which the keyword script calls Mixed. It never wins against more quantitative words. |
| AssignReviewersPairwise.ClassifyPapers | assign_reviewers_pairwise.py:319-320 | Each paper's method becomes its classification. |
| AssignReviewersPairwise.ClassifiedFacts | assign_reviewers_pairwise.py:319-320 | Papers stay in place, and each gets one of the four labels. |
| AssignReviewersPairwise.GetAvailable | assign_reviewers_pairwise.py:340-346 | The loop computes the available list. |
| AssignReviewersPairwise.AvailableMembers | assign_reviewers_pairwise.py:341-346 | A reviewer is available exactly when it matches the method and has room. |
| AssignReviewersPairwise.AvailableDistinct | assign_reviewers_pairwise.py:341-346 | Available reviewers have distinct keys. |
| AssignReviewersPairwise.ScorePairs | assign_reviewers_pairwise.py:355-366 | The scoring loop files the scores by key and by name. |
| AssignReviewersPairwise.PairScoresFresh | assign_reviewers_pairwise.py:355-358 | There is one score per available reviewer, in order, each the parse of its reply. |
| AssignReviewersPairwise.NameScoresKeys | assign_reviewers_pairwise.py:366 | Scores are logged under exactly the available reviewers' names. |
| AssignReviewersPairwise.ChosenTwo | assign_reviewers_pairwise.py:350-370 | With at least two available reviewers, exactly two distinct ones are chosen. |
| AssignReviewersPairwise.ChosenAvailable | assign_reviewers_pairwise.py:340-370 | Every chosen reviewer is available. |
| AssignReviewersPairwise.ChosenBest | assign_reviewers_pairwise.py:369-370 | No reviewer left out scores above a chosen one. |
| AssignReviewersPairwise.PaperStepEffect | assign_reviewers_pairwise.py:350-375 | A paper with fewer than two available reviewers changes nothing. Otherwise exactly the two chosen reviewers get the paper and one more load each. |
| AssignReviewersPairwise.RunCapacity | assign_reviewers_pairwise.py:332-377 | A capped reviewer's load never passes its limit. |
| AssignReviewersPairwise.RunLedger | assign_reviewers_pairwise.py:373-375 | Each load rises by exactly the papers added to that reviewer's list. |
| AssignReviewersPairwise.StartLedger | assign_reviewers_pairwise.py:328-377 | From the empty ledger, each load equals the reviewer's papers, and a capped reviewer stays within its limit. |
| AssignReviewersPairwise.AssignPairwise | assign_reviewers_pairwise.py:328-377 | The per-paper loop computes the run over the papers. |
| AssignReviewersPairwise.SaveAssignments | assign_reviewers_pairwise.py:254-283 | The inversion and the row loop compute the output rows. |
| AssignReviewersPairwise.OutputScoreCells | assign_reviewers_pairwise.py:271-276 | A score cell is '' exactly when its reviewer cell is blank. Otherwise it is the logged score, or 0. |
| AssignReviewersPairwise.OutputRowNames | assign_reviewers_pairwise.py:258-274 | A non-blank reviewer cell names a stored reviewer holding the paper. |
| AssignReviewersPairwise.PairwiseMain | assign_reviewers_pairwise.py:286-392 | `main` without I/O yields no rows exactly when the reviewer dictionary is empty, its early return. Otherwise it classifies, assigns and builds the rows. |
| PerPaper.RankedSorted | assign_reviewers_v2.py:477 | Ranking is a permutation in non-increasing score order. |
| PerPaper.TopTwoFacts | assign_reviewers_v2.py:478 | Two entries are taken whenever there are two, each from the scores. |
| PerPaper.TopTwoDistinct | assign_reviewers_pairwise.py:369-370 | The picks have different keys. |
| PerPaper.TopTwoBest | assign_reviewers_pairwise.py:369-370 | No entry left out scores above a pick. |
| PerPaper.CommitPicks | assign_reviewers_v2.py:485-487 | The commit loop computes the commit of the picks. |
| PerPaper.CommitPapers | assign_reviewers_v2.py:486 | The paper is appended once to each pick's list, and other lists do not change. |
| PerPaper.CommitLoad | assign_reviewers_v2.py:487 | Each pick's load rises by one, and other loads do not change. |
| PerPaper.InvertAssignments | assign_reviewers_pairwise.py:258-263 | The nested loop computes the inversion. |
| PerPaper.InvertMembers | assign_reviewers_pairwise.py:258-263 | A name is listed for a paper exactly when a known reviewer with that name holds it. |
| Variants.QuantMixedOnQualitative | assign_reviewers.py:194-196 | "Quant/Mixed" on a Qualitative paper is refused here, but admitted by the keyword and pairwise scripts. |
| Variants.QuantitativeOnConceptual | assign_reviewers_real.py:380-381 | A Quantitative reviewer on a Conceptual paper is refused only by the global-greedy script. |
| Patterns.AlphaRuns | assign_reviewers_real.py:188 | `re.findall('[a-z]+')` gives non-empty runs of lower-case letters. |
| Patterns.KeywordSetTerms | assign_reviewers_real.py:177-192 | Every keyword-set term is lower case and longer than two characters. It is a phrase, a long word of a phrase, or a long non-stopword of the abstract. |
| Patterns.ExtractKeywordSet | assign_reviewers_v2.py:71-105 | The loops of `_extract_keywords` compute the keyword set. |
| Patterns.SearchScoreOf | assign_reviewers_pairwise.py:173 | The leftmost match's group is the whole digit run after the marker. |
| Patterns.NoMarkerNoMatch | assign_reviewers_pairwise.py:170-173 | There is no match without the marker. |
| Patterns.CountHitsPositive | assign_reviewers_v2.py:364-365 | A count is positive exactly when some listed word occurs. |
| Sorting.StableOrderSorted | assign_reviewers.py:285 | A stable sort is a permutation ordered by key, with equal keys in input order. |
| Sorting.SortByPermutation | assign_reviewers_real.py:453 | Sorting keeps every element. |
| Common.LookupPut | assign_reviewers.py:327 | Writing a key changes only that key. |
| Common.CountDistinct | assign_reviewers.py:312-313 | A list without repeats counts each member once. |
| Text.CleanFieldsMembers | assign_reviewers_v2.py:174 | `[k.strip() for k in s.split(',') if k.strip()]` keeps exactly the non-blank stripped fields. |
| Text.StripIdempotent | assign_reviewers_v2.py:169 | Stripping twice is stripping once. |
| FixKeywords.FindPattern1 | fix_keywords.py:74-75 | This is the leftmost start of the method-word pattern: nothing matches before it. |
| FixKeywords.Clean1Prefixed | fix_keywords.py:76-80 | The cleaned match still starts with its method word and has no line break. |
| FixKeywords.ParseEmpty | fix_keywords.py:69-70 | Empty input gives "". |
| FixKeywords.ParseKeywordsValid | fix_keywords.py:64-100 | Every result has at most 200 characters, and every non-empty result passes `is_valid_keywords`. |
| FixKeywords.Pattern1First | fix_keywords.py:74-82 | When the first pattern's cleaned match is shorter than 250 characters, its first 200 characters are returned, whatever follows. |
| FixKeywords.FindPattern2 | fix_keywords.py:85 | This is the leftmost start of the label pattern. |
| FixKeywords.LastQualifyingFacts | fix_keywords.py:93-98 | The backwards scan returns the last line that has a comma, a length strictly between 50 and 250, and a method word in front. It returns nothing exactly when no line qualifies. |
| FixKeywords.FallbackToLines | fix_keywords.py:92-100 | Without a pattern match, the answer is the last qualifying stripped line cut to 200 characters, or "" exactly when none qualifies. |
| FixKeywords.ValidIffPrefixed | fix_keywords.py:169-178 | A string is valid exactly when its lower-cased, unstripped text starts with a method word. Blank input is never valid. |
| FixKeywords.LeadingSpaceInvalid | fix_keywords.py:174-177 | Leading whitespace makes a string invalid. |
| FixKeywords.MethodPrefixedTake | fix_keywords.py:82 | Cutting to 200 characters keeps the method word. |
| CleanKeywords.CleanKeywords | clean_keywords.py:12-49 | The successive rebinds, with the `for/else` scan, compute the cleaned text. |
| CleanKeywords.CleanedFacts | clean_keywords.py:12-49 | The output is at most 200 characters, with no `"`, no `'` and no line break. It never starts with "Okay". Empty or blank input gives "". |
| CleanKeywords.FinishFacts | clean_keywords.py:36-49 | The final stages alone guarantee these bounds. |
| CleanKeywords.LastKeywordLineFacts | clean_keywords.py:26-31 | The scan finds the last line with a comma, shorter than 300 characters and not starting with "Okay", or none exactly when no line qualifies. |
| CleanKeywords.OkayWithoutAnswer | clean_keywords.py:18-34 | Text starting "Okay," with no "Keywords:" and no qualifying line gives "". |
| CleanKeywords.LabelGroupLine | clean_keywords.py:20-22 | The label search returns the rest of the line after the leftmost "Keywords:" and its whitespace. |
| Text.LastNonBreak | clean_keywords.py:20 | When `\s*` runs to the end, the group is the last character that is not a line break. |
| CleanKeywords.StripLabelInverse | clean_keywords.py:37 | A leading "Keywords:" in any case, with its whitespace, is removed. |
| CleanKeywords.StripLabelOnce | clean_keywords.py:37 | The label is removed only once. |
| AnonymizePdfs.GetSensitiveTerms | anonymize_pdfs_final.py:29-58 | The nested loops compute the union of the listed columns' terms. |
| AnonymizePdfs.AddLongParts | anonymize_pdfs_final.py:54-56 | The inner loop adds exactly the parts longer than two characters to the set. |
| AnonymizePdfs.TermFacts | anonymize_pdfs_final.py:49-56 | Every term is longer than two characters, stripped, and free of ',' and ';'. It comes from a listed column holding a value. |
| AnonymizePdfs.PartsFacts | anonymize_pdfs_final.py:53 | Every part is stripped, with no ',' or ';'. |
| AnonymizePdfs.LongPartsMembers | anonymize_pdfs_final.py:54-56 | Exactly the parts longer than two characters are added. |
| AnonymizePdfs.OnlyListedColumns | anonymize_pdfs_final.py:34-50 | Rows that agree on the 12 listed columns give the same terms. |
| AnonymizePdfs.NoValuesNoTerms | anonymize_pdfs_final.py:50 | Absent and NaN columns contribute nothing. |
| AnonymizePdfs.SingleValueColumn | anonymize_pdfs_final.py:51-56 | A value with no separator and longer than two characters contributes exactly its stripped self. |
| ProcessPapers.StemOfPdf | process_papers.py:71 | ".pdf" and ".PDF" are removed from a file name whose stem holds neither. |
| ProcessPapers.ReplaceNone | process_papers.py:71 | Replacing an absent extension changes nothing. |
| ProcessPapers.Backoff | process_papers.py:75 | `(.+)$` starts at the largest start it can: the greedy run hands back as much as needed. |
| ProcessPapers.Leftmost | process_papers.py:75 | `re.search` finds the leftmost match. |
| ProcessPapers.ParenYearTitle | process_papers.py:73-80 | "Authors (YYYY). Title" gives the title after the leftmost `(dddd)` and its dots and spaces. A final dash and the whitespace around it are removed. |
| ProcessPapers.DocExample | process_papers.py:63-69 | The documented example file name gives "Exploitation, exploration, and process management". |
| ProcessPapers.NoParenNoMatch | process_papers.py:75 | Without "(" the first pattern does not match. |
| ProcessPapers.TitleBounds | process_papers.py:75-99 | Every title is at most 100 characters. A fallback title is at most 80 characters and starts with neither a dash nor whitespace. |
| ProcessPapers.NoSpacedYear | process_papers.py:84 | The second pattern needs four digits followed by a comma or whitespace. |
| ProcessPapers.SpacedYearTakesSecond | process_papers.py:84-87 | Such a year, with more text on the line, is caught by the second pattern. |
| ProcessPapers.TightDashTakesThird | process_papers.py:84-93 | A year joined directly to a dash reaches the third pattern, which gives the title. |
| ProcessPapers.TightDashExample | process_papers.py:90-93 | "2003-Title" gives "Title". |
| ProcessPapers.SpacedDashExample | process_papers.py:84-87 | "2003 - Title" is caught by the second pattern and gives "- Title". |
| ProcessPapers.KeywordsAt | process_papers.py:128 | A match's group is a non-empty span that starts after the "keyword" prefix and its separators. |
| ProcessPapers.KeywordsField | process_papers.py:128-130 | The explicit keywords field is at most 200 characters. |
| ProcessPapers.FindInCatalogue | process_papers.py:133-136 | The loop computes the found entries. |
| ProcessPapers.ExtractCatalogue | process_papers.py:121-151 | The page loop and the tag loops compute the catalogue tags. |
| ProcessPapers.FoundMembers | process_papers.py:134-136 | An entry is found exactly when it is listed and its lower-cased form is in the text. |
| ProcessPapers.FoundAppend | process_papers.py:134-136 | Found entries keep catalogue order. |
| ProcessPapers.ListedFacts | process_papers.py:137 | At most three entries are listed, each found in the text, and they are the first ones found. |
| ProcessPapers.CatalogueFacts | process_papers.py:128-151 | The keywords field is at most 200 characters, and each list draws on its own catalogue. |

## Left out

- Network I/O is not modelled: the language model, Firebase and Dropbox. Replies and records are parameters: `reply` functions, `Record` values, and page text as strings.
- CSV, Excel and PDF reading and writing, printing, timing and checkpoint saves are not modelled. Only the row values of the `save_*` functions are.
- Floating point: scores and similarities are exact `real`s, and IEEE rounding is not modelled.
- Case mapping is modelled as ASCII only. Python's `lower`/`upper` and `re.IGNORECASE` are Unicode, so non-ASCII letters such as the Kelvin sign matching "k" are not covered. `\d` is ASCII digits only.
- Reviewer ids made by `hash(name)` in `assign_reviewers_real.py` are treated as opaque strings, because the hash is randomised per process.
- The hardcoded reviewer profile and fallback tables are data. They are inputs of the model.
- Reading a `defaultdict` inserts a key. The model reads a missing key as its default without inserting it, so dictionary key order after such reads is not modelled.
- AssignReviewers.CalculateCapacity: requires at least one reviewer, because the source divides by zero otherwise.
- AssignReviewersReal.AvgLoad: requires at least one reviewer, for the same reason.
- AssignReviewers.Allocate: requires a positive capacity, because the load penalty divides by it.
- `int(data.get('maxPapers', 0))` is modelled on an already-parsed optional integer. A malformed value, which would raise, is not modelled.
- The reviewer dictionaries are sequences of records. The proofs that need one record per key assume distinct keys, as dictionary keys are.
- `Paper.method` is assigned in place in the source. The model returns updated paper values (`ClassifyPapers`), so aliasing through shared paper objects is not modelled.
- The reviewer email field is carried by neither Reviewer model, because nothing reads it.
- The reason text of the score replies is not modelled, because the callers discard it.
- A fallback table entry without its keys raises `KeyError` in `assign_reviewers_pairwise.py:87-88`. The model reads such entries as optional fields.
- Python's `str()` of a non-string metadata cell is not modelled: cells are optional strings.
- `normalize_text` and the PDF redaction functions of `anonymize_pdfs_final.py` are library-bound and not modelled.
- `PDF_SUPPORT` and the exception handler of `extract_keywords_from_pdf` are not modelled. Page extraction is not modelled either: the pages' text is the input.
- ProcessPapers.DropFinalDash: models `re.sub(r'[-–—]\s*$', '', title)` only on an already stripped title, which is how the source calls it.
- ProcessPapers.StemOfPdf: covers stems without ".pdf"/".PDF". A single replacement pass can leave an extension in a name like "a..pdfpdf", and the function models that behaviour faithfully without a lemma about it.
- FixKeywords.NeedsFixing: states its constant result only, as the source does.
- AssignReviewersReal.ParseScoreOf: the source's `int()` raises `ValueError` on a digit run longer than 4300 digits (CPython 3.11 and later). The surrounding `try`/`except: pass` keeps the default 40. The model takes the value of the whole digit run at any length, so that case is not modelled. Replies are capped at a few dozen tokens.
- AssignReviewersPairwise.ParseScoreOf: for the same reason, a digit run longer than 4300 digits keeps the default 0 in the source, while the model clamps it to 100.
- AssignReviewersReal.HybridListsDistinct: requires distinct paper ids, which the CSV does not guarantee. Two papers sharing an id can each short-list the same reviewer, and then the greedy pass can list that reviewer twice under the shared id. The language-model replies are parameters keyed by paper id (and reviewer id), so two rows sharing an id always get the same reply here, while the source makes one call per row.
