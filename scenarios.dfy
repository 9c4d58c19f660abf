/**
 * Worked evaluations: the risk at the threshold boundaries, percentages,
 * and one complete evaluation of a wrong answer.
 */
module Scenarios {
  import opened Text
  import opened Sequences
  import opened Concepts
  import opened Ratios
  import opened Rationale
  import opened Scoring
  import opened ExampleTexts

  /** The thresholds are strict: exactly 0.3 is Low, exactly 0.6 Medium. */
  lemma RiskBoundaries()
    ensures RiskOf(Ratio(3, 10)) == Low
    ensures RiskOf(Ratio(4, 10)) == Medium
    ensures RiskOf(Ratio(6, 10)) == Medium
    ensures RiskOf(Ratio(7, 10)) == High
  {
  }

  lemma RomeMatching()
    ensures Matching(RomeHypothesis, ParisReference) == ["the", "eiffel", "tower"]
  {
    RomeHalves();
    FilterAppend(["the", "eiffel", "tower"], ["rome", "italy"], Mentioned(ParisReference));
    FilterKeepsAll(["the", "eiffel", "tower"], Mentioned(ParisReference));
    FilterNone(["rome", "italy"], Mentioned(ParisReference));
  }

  lemma RomeConflicting()
    ensures Conflicting(RomeHypothesis, ParisReference) == ["rome", "italy"]
  {
    RomeHalves();
    FilterAppend(["the", "eiffel", "tower"], ["rome", "italy"], Unsupported(ParisReference));
    FilterNone(["the", "eiffel", "tower"], Unsupported(ParisReference));
    FilterKeepsAll(["rome", "italy"], Unsupported(ParisReference));
  }

  /** The first three hypothesis concepts are in the reference, the last
      two are not. */
  lemma RomeHalves()
    ensures RomeHypothesis == ["the", "eiffel", "tower"] + ["rome", "italy"]
    ensures "the" in ParisReference && "eiffel" in ParisReference && "tower" in ParisReference
    ensures "rome" !in ParisReference && "italy" !in ParisReference
  {
    assert ParisReference[0] == "the" && ParisReference[1] == "eiffel" && ParisReference[2] == "tower";
  }

  lemma OneThirdText()
    ensures PercentText(Ratio(3, 9)) == "33.3"
  {
    assert Tenths(Ratio(3, 9)) == 333;
    assert NatText(33) == "33";
  }

  /** Evaluating the example model answer against the example reference:
      three of the nine reference concepts are shared, a weak 33.3%, and two
      of the five answer concepts conflict, a Medium risk. */
  lemma RomeForParis()
    ensures Evaluate(RomeAnswer, ParisAnswer).analysis.hypothesisConcepts == ["the", "eiffel", "tower", "rome", "italy"]
    ensures Evaluate(RomeAnswer, ParisAnswer).analysis.referenceConcepts == ["the", "eiffel", "tower", "paris", "france", "located", "the", "champ", "mars"]
    ensures Evaluate(RomeAnswer, ParisAnswer).analysis.matchingConcepts == ["the", "eiffel", "tower"]
    ensures Evaluate(RomeAnswer, ParisAnswer).analysis.conflictingConcepts == ["rome", "italy"]
    ensures Evaluate(RomeAnswer, ParisAnswer).fidelityScore == Ratio(3, 9)
    ensures Evaluate(RomeAnswer, ParisAnswer).hallucinationRisk == Medium
    ensures StrengthOf(Evaluate(RomeAnswer, ParisAnswer).fidelityScore) == Weak
    ensures PercentText(Evaluate(RomeAnswer, ParisAnswer).fidelityScore) == "33.3"
  {
    RomeExtracted();
    ParisExtracted();
    RomeMatching();
    RomeConflicting();
    assert Fidelity(RomeHypothesis, ParisReference) == Ratio(3, 9);
    assert ConflictRatio(RomeHypothesis, Conflicting(RomeHypothesis, ParisReference)) == Ratio(2, 5);
    OneThirdText();
  }

  /** Without shared or conflicting concepts the rationale keeps the
      template's space before the full stop. */
  lemma NothingShared(fidelity: Ratio)
    requires fidelity.den > 0
    ensures HasPrefix(RationaleText([], [], fidelity), Opening + SharesNone + " .")
  {
    assert MatchClause([]) == SharesNone && ConflictClause([]) == ".";
    FourParts(Opening, SharesNone, " ", ".", ScoreClause(fidelity));
    assert " " + "." == " .";
  }

  lemma FourParts(a: string, b: string, c: string, d: string, e: string)
    ensures HasPrefix(a + b + c + d + e, a + b + (c + d))
  {
    assert a + b + c + d + e == (a + b + (c + d)) + e;
  }

  /** The percentages at the ends of the scale. */
  lemma PercentEnds()
    ensures PercentText(Ratio(0, 1)) == "0.0"
    ensures PercentText(Ratio(10, 10)) == "100.0"
  {
    assert Tenths(Ratio(0, 1)) == 0;
    assert NatText(0) == "0";
    assert Tenths(Ratio(10, 10)) == 1000;
    assert NatText(100) == "100";
  }
}
