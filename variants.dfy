/**
  The eligibility tables of the allocation scripts differ; each script is
  modelled as written, and these lemmas pin down where they disagree.
 */
module Variants {
  import opened Common
  import opened Text
  import AssignReviewers
  import AssignReviewersReal
  import V2 = AssignReviewersV2
  import Pairwise = AssignReviewersPairwise

  /**
    A "Quant/Mixed" reviewer is refused a Qualitative paper by the
    scarcity-first script but admitted by the keyword and pairwise scripts.
   */
  lemma QuantMixedOnQualitative()
    ensures !AssignReviewers.Eligible(Some("Qualitative"), "Quant/Mixed")
    ensures V2.MethodMatches("Qualitative", "Quant/Mixed")
    ensures Pairwise.MethodMatches(Some("Qualitative"), Some("Quant/Mixed"))
  {
    V2.QuantMixedTakesQualitative();
    Pairwise.MethodMatchesAsV2(Some("Qualitative"), Some("Quant/Mixed"));
  }

  /**
    A "Quantitative" reviewer is refused a Conceptual paper by the
    global-greedy script but admitted by the other three.
   */
  lemma QuantitativeOnConceptual()
    ensures !AssignReviewersReal.MethodMatches(Some("Conceptual"), "Quantitative")
    ensures AssignReviewers.Eligible(Some("Conceptual"), "Quantitative")
    ensures V2.MethodMatches("Conceptual", "Quantitative")
    ensures Pairwise.MethodMatches(Some("Conceptual"), Some("Quantitative"))
  {
    RealRefusesQuantitative();
    OthersAdmitQuantitative();
    Pairwise.MethodMatchesAsV2(Some("Conceptual"), Some("Quantitative"));
  }

  lemma RealRefusesQuantitative()
    ensures !AssignReviewersReal.MethodMatches(Some("Conceptual"), "Quantitative")
  {
    var rm := Lower("Quantitative");
    assert rm == "quantitative";
    MissingCharNotContained(rm, "mixed", 0);
    assert At(rm, 0, "quantitative");
    assert Lower("Conceptual") == "conceptual";
  }

  lemma OthersAdmitQuantitative()
    ensures AssignReviewers.Eligible(Some("Conceptual"), "Quantitative")
    ensures V2.MethodMatches("Conceptual", "Quantitative")
  {
    var rm := Lower("Quantitative");
    assert rm == "quantitative";
    MissingCharNotContained(rm, "mixed", 0);
    assert At(rm, 0, "quantitative");
  }
}
