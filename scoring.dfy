/**
 * The scorer of an evaluation: the concepts the hypothesis shares with the
 * reference, the ones it introduces on its own, the fidelity score, the
 * conflict ratio and the hallucination risk it leads to, and the result
 * record that gathers them.
 */
module Scoring {
  import opened Sequences
  import opened Concepts
  import opened Ratios
  import opened Rationale

  /** The filter `concept => referenceConcepts.includes(concept)`. */
  function Mentioned(reference: seq<string>): string -> bool {
    w => w in reference
  }

  /** The filter `concept => !referenceConcepts.includes(concept) && concept.length > 3`. */
  function Unsupported(reference: seq<string>): string -> bool {
    w => w !in reference && |w| > 3
  }

  /** `matchingConcepts`: the hypothesis concepts that the reference also
      names, in hypothesis order and with hypothesis repetitions. */
  function Matching(hypothesis: seq<string>, reference: seq<string>): (m: seq<string>)
    ensures IsSubseq(m, hypothesis)
    ensures forall i :: 0 <= i < |m| ==> m[i] in reference
  {
    FilterIsSubseq(hypothesis, Mentioned(reference));
    Filter(hypothesis, Mentioned(reference))
  }

  /** `conflictingConcepts`: the hypothesis concepts longer than three
      characters that the reference does not name. */
  function Conflicting(hypothesis: seq<string>, reference: seq<string>): (c: seq<string>)
    ensures IsSubseq(c, hypothesis)
    ensures forall i :: 0 <= i < |c| ==> c[i] !in reference && |c[i]| > 3
  {
    FilterIsSubseq(hypothesis, Unsupported(reference));
    Filter(hypothesis, Unsupported(reference))
  }

  /** Matching keeps every occurrence of a concept the reference names and
      nothing else: with the subsequence property, it is exactly the
      subsequence of the hypothesis made of the shared concepts. */
  lemma MatchingCount(hypothesis: seq<string>, reference: seq<string>, w: string)
    ensures multiset(Matching(hypothesis, reference))[w] == if w in reference then multiset(hypothesis)[w] else 0
    ensures w in Matching(hypothesis, reference) <==> w in hypothesis && w in reference
  {
    FilterCount(hypothesis, Mentioned(reference), w);
    FilterMember(hypothesis, Mentioned(reference), w);
  }

  /** Conflicting keeps every occurrence of an unreferenced concept longer
      than three characters and nothing else. */
  lemma ConflictingCount(hypothesis: seq<string>, reference: seq<string>, w: string)
    ensures multiset(Conflicting(hypothesis, reference))[w] == if w !in reference && |w| > 3 then multiset(hypothesis)[w] else 0
    ensures w in Conflicting(hypothesis, reference) <==> w in hypothesis && w !in reference && |w| > 3
  {
    FilterCount(hypothesis, Unsupported(reference), w);
    FilterMember(hypothesis, Unsupported(reference), w);
  }

  /** No concept is both shared and conflicting. */
  lemma MatchingConflictingDisjoint(hypothesis: seq<string>, reference: seq<string>, w: string)
    ensures !(w in Matching(hypothesis, reference) && w in Conflicting(hypothesis, reference))
  {
    MatchingCount(hypothesis, reference, w);
    ConflictingCount(hypothesis, reference, w);
  }

  /** Together the two lists take at most every hypothesis concept once. */
  lemma MatchingConflictingBound(hypothesis: seq<string>, reference: seq<string>)
    ensures |Matching(hypothesis, reference)| + |Conflicting(hypothesis, reference)| <= |hypothesis|
  {
    FilterDisjointBound(hypothesis, Mentioned(reference), Unsupported(reference));
  }

  /** A three-character concept the reference does not name is counted
      nowhere: neither shared nor conflicting. */
  lemma ShortUnmatchedIgnored(hypothesis: seq<string>, reference: seq<string>, w: string)
    requires |w| == 3 && w !in reference
    ensures w !in Matching(hypothesis, reference) && w !in Conflicting(hypothesis, reference)
  {
    MatchingCount(hypothesis, reference, w);
    ConflictingCount(hypothesis, reference, w);
  }

  /** `fidelityScore`: the shared concepts over the longer of the two
      lists, or 0 when both are empty. */
  function Fidelity(hypothesis: seq<string>, reference: seq<string>): (f: Ratio)
    ensures f.den > 0 && f.num <= f.den
  {
    var total := Max(|hypothesis|, |reference|);
    if total > 0 then Ratio(|Matching(hypothesis, reference)|, total) else Ratio(0, 1)
  }

  /** The score is 0 exactly when nothing is shared (in particular when
      both lists are empty). */
  lemma FidelityZero(hypothesis: seq<string>, reference: seq<string>)
    ensures Fidelity(hypothesis, reference).num == 0 <==> forall i :: 0 <= i < |hypothesis| ==> hypothesis[i] !in reference
  {
    var m := Matching(hypothesis, reference);
    if forall i :: 0 <= i < |hypothesis| ==> hypothesis[i] !in reference {
      FilterNone(hypothesis, Mentioned(reference));
    } else {
      var i :| 0 <= i < |hypothesis| && hypothesis[i] in reference;
      MatchingCount(hypothesis, reference, hypothesis[i]);
    }
  }

  /** The score is 1 exactly when the hypothesis is non-empty, at least as
      long as the reference, and every one of its concepts is shared. */
  lemma FidelityOne(hypothesis: seq<string>, reference: seq<string>)
    ensures Fidelity(hypothesis, reference).num == Fidelity(hypothesis, reference).den
        <==> hypothesis != [] && |hypothesis| >= |reference| && forall i :: 0 <= i < |hypothesis| ==> hypothesis[i] in reference
  {
    FilterKeepsAll(hypothesis, Mentioned(reference));
  }

  /** Identical non-empty concept lists score 1. */
  lemma FidelityOfSame(concepts: seq<string>)
    requires concepts != []
    ensures Fidelity(concepts, concepts) == Ratio(|concepts|, |concepts|)
  {
    FidelityOne(concepts, concepts);
  }

  /** `conflictRatio`: the conflicting concepts over the hypothesis
      concepts, counting an empty hypothesis as one. */
  function ConflictRatio(hypothesis: seq<string>, conflicting: seq<string>): (q: Ratio)
    ensures q.den > 0
  {
    Ratio(|conflicting|, Max(|hypothesis|, 1))
  }

  datatype Risk = Low | Medium | High

  /** The order of the labels. */
  function Rank(r: Risk): nat {
    match r
    case Low => 0
    case Medium => 1
    case High => 2
  }

  /** `hallucinationRisk`: High above 0.6, Medium above 0.3, Low otherwise. */
  function RiskOf(q: Ratio): (r: Risk)
    requires q.den > 0
    ensures r == High <==> 10 * q.num > 6 * q.den
    ensures r == Medium <==> 3 * q.den < 10 * q.num <= 6 * q.den
    ensures r == Low <==> 10 * q.num <= 3 * q.den
  {
    if Exceeds(q, 6) then High else if Exceeds(q, 3) then Medium else Low
  }

  /** More conflicts never lower the risk. */
  lemma RiskMonotone(c1: nat, c2: nat, h: nat)
    requires c1 <= c2 && h > 0
    ensures Rank(RiskOf(Ratio(c1, h))) <= Rank(RiskOf(Ratio(c2, h)))
  {
    ExceedsMonotone(c1, c2, h, 6);
    ExceedsMonotone(c1, c2, h, 3);
  }

  /** A hypothesis without concepts has no conflicts and is Low. */
  lemma EmptyHypothesisLow(reference: seq<string>)
    ensures RiskOf(ConflictRatio([], Conflicting([], reference))) == Low
  {
  }

  /** The lists an evaluation reports. */
  datatype Analysis = Analysis(
    hypothesisConcepts: seq<string>,
    referenceConcepts: seq<string>,
    matchingConcepts: seq<string>,
    conflictingConcepts: seq<string>)

  /** `EvaluationResult`. */
  datatype EvaluationResult = EvaluationResult(
    fidelityScore: Ratio,
    hallucinationRisk: Risk,
    analysis: Analysis,
    rationale: string)

  /** What every evaluation result satisfies: bounded concept lists, the
      shared and conflicting concepts drawn from the hypothesis and
      separated by the reference, a score in [0, 1] counting the shared
      concepts, and a risk and rationale that agree with the counts. */
  ghost predicate WellFormed(r: EvaluationResult) {
    var a := r.analysis;
    |a.hypothesisConcepts| <= MaxConcepts && |a.referenceConcepts| <= MaxConcepts
    && (forall k :: 0 <= k < |a.hypothesisConcepts| ==> IsConcept(a.hypothesisConcepts[k]))
    && (forall k :: 0 <= k < |a.referenceConcepts| ==> IsConcept(a.referenceConcepts[k]))
    && IsSubseq(a.matchingConcepts, a.hypothesisConcepts)
    && IsSubseq(a.conflictingConcepts, a.hypothesisConcepts)
    && (forall k :: 0 <= k < |a.matchingConcepts| ==> a.matchingConcepts[k] in a.referenceConcepts)
    && (forall k :: 0 <= k < |a.conflictingConcepts| ==> a.conflictingConcepts[k] !in a.referenceConcepts && |a.conflictingConcepts[k]| > 3)
    && |a.matchingConcepts| + |a.conflictingConcepts| <= |a.hypothesisConcepts|
    && 0 < r.fidelityScore.den <= MaxConcepts
    && r.fidelityScore.num == |a.matchingConcepts| <= r.fidelityScore.den
    && r.hallucinationRisk == RiskOf(ConflictRatio(a.hypothesisConcepts, a.conflictingConcepts))
    && HasPrefix(r.rationale, Opening + Identifies) == (|a.matchingConcepts| > 0)
  }

  /** The scorer: the result of evaluating `llmOutput` against `goldAnswer`. */
  function Evaluate(llmOutput: string, goldAnswer: string): (r: EvaluationResult)
    ensures r.analysis.hypothesisConcepts == ExtractConcepts(llmOutput)
    ensures r.analysis.referenceConcepts == ExtractConcepts(goldAnswer)
    ensures WellFormed(r)
  {
    var hypothesis := ExtractConcepts(llmOutput);
    var reference := ExtractConcepts(goldAnswer);
    var matching := Matching(hypothesis, reference);
    var conflicting := Conflicting(hypothesis, reference);
    var fidelity := Fidelity(hypothesis, reference);
    MatchingConflictingBound(hypothesis, reference);
    RationaleIdentifies(matching, conflicting, fidelity);
    EvaluationResult(
      fidelity,
      RiskOf(ConflictRatio(hypothesis, conflicting)),
      Analysis(hypothesis, reference, matching, conflicting),
      RationaleText(matching, conflicting, fidelity))
  }
}
