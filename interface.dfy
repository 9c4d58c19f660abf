/**
 * The evaluation page's state: the reference answer the user typed, the
 * last evaluation result and the loading flag, and `runEvaluation`, which
 * checks the reference, scores the model output against it and stores the
 * result.
 */
module Evaluation {
  import opened Text
  import opened Concepts
  import opened Ratios
  import opened Rationale
  import opened Scoring

  datatype Option<T> = None | Some(value: T)

  /** The notification a run ends with: the destructive "Missing
      Reference" one, or "Evaluation Complete" with the risk found. */
  datatype Notice = MissingReference | EvaluationComplete(risk: Risk)

  /** The body of the evaluation: the concepts of both texts, the shared
      and conflicting ones, the fidelity score, the risk (chosen by the
      same chain of reassignments as the page) and the rationale. */
  method Score(llmOutput: string, goldAnswer: string) returns (result: EvaluationResult)
    ensures result == Evaluate(llmOutput, goldAnswer)
  {
    var hypothesisConcepts := ExtractConcepts(llmOutput);
    var referenceConcepts := ExtractConcepts(goldAnswer);
    var matchingConcepts := Matching(hypothesisConcepts, referenceConcepts);
    var conflictingConcepts := Conflicting(hypothesisConcepts, referenceConcepts);
    var fidelityScore := Fidelity(hypothesisConcepts, referenceConcepts);

    var conflictRatio := Ratio(|conflictingConcepts|, Max(|hypothesisConcepts|, 1));
    var hallucinationRisk := Low;
    if Exceeds(conflictRatio, 6) {
      hallucinationRisk := High;
    } else if Exceeds(conflictRatio, 3) {
      hallucinationRisk := Medium;
    }

    result := EvaluationResult(
      fidelityScore,
      hallucinationRisk,
      Analysis(hypothesisConcepts, referenceConcepts, matchingConcepts, conflictingConcepts),
      RationaleText(matchingConcepts, conflictingConcepts, fidelityScore));
  }

  class EvaluationInterface {
    var goldAnswer: string
    var evaluationResult: Option<EvaluationResult>
    var isLoading: bool

    /** Between runs nothing is loading, and a stored result is one the
        scorer can produce. */
    ghost predicate Valid()
      reads this
    {
      !isLoading && (evaluationResult.Some? ==> WellFormed(evaluationResult.value))
    }

    /** The page starts with an empty reference, no result and nothing
        loading. */
    constructor ()
      ensures Valid()
      ensures goldAnswer == [] && evaluationResult == None && !isLoading
    {
      goldAnswer := [];
      evaluationResult := None;
      isLoading := false;
    }

    /** `setGoldAnswer`, the reference field's change handler. */
    method SetGoldAnswer(text: string)
      requires Valid()
      modifies this
      ensures Valid()
      ensures goldAnswer == text
      ensures evaluationResult == old(evaluationResult) && isLoading == old(isLoading)
    {
      goldAnswer := text;
    }

    /** `runEvaluation(prompt, llmOutput)`. The prompt takes no part in
        the scoring. */
    method RunEvaluation(prompt: string, llmOutput: string) returns (notice: Notice)
      requires Valid()
      modifies this
      ensures Valid()
      ensures goldAnswer == old(goldAnswer)
      ensures IsBlank(goldAnswer) ==> notice == MissingReference && unchanged(this)
      ensures !IsBlank(goldAnswer) ==>
        evaluationResult == Some(Evaluate(llmOutput, goldAnswer)) && !isLoading
        && notice == EvaluationComplete(Evaluate(llmOutput, goldAnswer).hallucinationRisk)
    {
      if Trim(goldAnswer) == [] {
        return MissingReference;
      }

      isLoading := true;
      var result := Score(llmOutput, goldAnswer);
      evaluationResult := Some(result);
      notice := EvaluationComplete(result.hallucinationRisk);
      isLoading := false;
    }
  }
}
