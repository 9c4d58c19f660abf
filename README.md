# Hallucination evaluation of a model answer

This project models the scorer behind the evaluation page of a small web
application. The page compares an LLM's answer (the hypothesis) with a
reference answer (the gold answer) the user typed. `runEvaluation` does the
following:

- It refuses to run when the gold answer is blank.
- It extracts up to ten lower-case "concepts" (words longer than two
  characters) from each text.
- It splits the hypothesis concepts into the ones the reference also names
  (matching) and the unreferenced ones longer than three characters
  (conflicting).
- It computes a fidelity score (matches over the longer list) and a conflict
  ratio. The conflict ratio gives a hallucination risk of Low, Medium or High,
  with thresholds 0.3 and 0.6.
- It writes a one-sentence rationale with the score as a percentage with one
  decimal, and an adjective: strong above 0.7, moderate above 0.4, weak
  otherwise.
- It stores the result in the page state, clearing the loading flag at the
  end.

The model is split into these modules:

- `Sequences`: `filter` and subsequences.
- `Text`: the JavaScript string primitives the extraction uses. These are
  `\w`, `\s`, `toLowerCase`, `replace`, `trim` and `split(/\s+/)`, including
  the empty pieces `split` keeps at the edges.
- `Concepts`: `extractConcepts`.
- `Ratios`: the scores as exact fractions, and `toFixed(1)` of a percentage.
- `Rationale`: the rationale sentence.
- `Scoring`: the matching and conflicting lists, fidelity, risk and the
  result record.
- `Evaluation`: the page state as a class whose `RunEvaluation` method
  updates it. The method computes the risk with the same chain of
  reassignments as the page.
- `ExampleTexts`: the two example sentences of the page and their concepts.
- `Scenarios`: worked evaluations.

Both scores are a count divided by a count of at most ten. The model keeps
each one as an exact pair of naturals and compares it with `t / 10` by
cross-multiplying. With denominators of at most ten, no such quotient other
than `t / 10` itself lies within a rounding error of a threshold. The double
`k / 10` is the same double as the literal `0.k`. So the exact comparison
decides like the page's floating-point one.

The reference check `!goldAnswer.trim()` is modelled exactly as "the gold
answer is made only of ECMAScript white space" (`Text.Trim`).

The page's example buttons load the model answer "The Eiffel Tower is in
Rome, Italy." and the reference "The Eiffel Tower is in Paris, France,
located on the Champ de Mars.". `extractConcepts` does not drop repeated
words, so it keeps the reference's second "the": the reference has nine
concepts. `ExampleTexts.RomeExtracted` and `ExampleTexts.ParisExtracted`
derive both concept lists from the sentences themselves, and
`Scenarios.RomeForParis` evaluates the pair: three shared concepts out of
nine, a fidelity of 3/9 printed as "33.3", weak, with Medium risk.

## Model

| member | source | states |
|---|---|---|
| Text.IsWordChar | src/pages/EvaluationInterface.tsx:47 | `\w` without the `u` flag: every word character is ASCII |
| Text.IsSpace | src/pages/EvaluationInterface.tsx:29 | `\s` and what `trim` removes: no white-space character is a word character, so the blanking and the split never disagree |
| Text.Lower | src/pages/EvaluationInterface.tsx:46 | `toLowerCase` keeps the length, leaves no ASCII capital and keeps each position a word character or not |
| Text.BlankNonWord | src/pages/EvaluationInterface.tsx:47 | `replace(/[^\w\s]/g, ' ')` keeps the length, keeps word and space characters, and turns every other character into a space |
| Text.Trim | src/pages/EvaluationInterface.tsx:29 | the trimmed gold answer is empty exactly when the gold answer is all white space; otherwise it neither starts nor ends with white space |
| Text.Split | src/pages/EvaluationInterface.tsx:48 | `split(/\s+/)` gives at least one piece, and no piece holds white space |
| Text.SplitOfBlank | src/pages/EvaluationInterface.tsx:48 | blank text splits into `[""]` (empty text) or `["", ""]` |
| Text.SplitKeepsText | src/pages/EvaluationInterface.tsx:48 | the pieces put back together are exactly the non-space characters, in order: splitting loses only white space |
| Concepts.Normalize | src/pages/EvaluationInterface.tsx:46-47 | after lower-casing and blanking, each position is white space exactly when the original character is not a word character, and otherwise a lower-case word character |
| Concepts.LongEnough | src/pages/EvaluationInterface.tsx:49 | the filter `word => word.length > 2`; `Concepts.AllConcepts` states that every piece it keeps is longer than two characters |
| Concepts.AllConcepts | src/pages/EvaluationInterface.tsx:46-49 | every piece kept by the length filter is a concept: longer than two characters, made of lower-case word characters |
| Concepts.ExtractConcepts | src/pages/EvaluationInterface.tsx:45-51 | at most ten concepts, each a concept; they are the first ones in text order, and all of them when there are fewer than ten |
| Concepts.ConceptsOfSeparated | src/pages/EvaluationInterface.tsx:46-49 | any non-word character separates: the concepts of `a + [c] + b` are those of `a` followed by those of `b` |
| Concepts.ConceptsOfWord | src/pages/EvaluationInterface.tsx:46-49 | a run of word characters gives its lower-case form if it is longer than two characters, and nothing otherwise |
| Concepts.ConceptsOfWords | src/pages/EvaluationInterface.tsx:46-49 | words separated by non-word characters give the words longer than two characters, lower-cased, in order and with repetitions |
| Concepts.NoWordsNoConcepts | src/pages/EvaluationInterface.tsx:45-51 | empty, blank or punctuation-only text has no concepts |
| Concepts.ExtractStopsAtTen | src/pages/EvaluationInterface.tsx:50 | once ten concepts have been written, the text that follows changes nothing |
| Concepts.KeepsDuplicates | src/pages/EvaluationInterface.tsx:45-51 | a concept written twice is extracted twice, with no de-duplication |
| Scoring.Mentioned | src/pages/EvaluationInterface.tsx:58 | the filter `concept => referenceConcepts.includes(concept)`; `Scoring.MatchingCount` states what filtering with it keeps |
| Scoring.Unsupported | src/pages/EvaluationInterface.tsx:62 | the filter `concept => !referenceConcepts.includes(concept) && concept.length > 3`; `Scoring.ConflictingCount` states what filtering with it keeps |
| Sequences.Filter | src/pages/EvaluationInterface.tsx:49 | `filter` is never longer than its input, and everything it keeps passes the test |
| Scoring.Matching | src/pages/EvaluationInterface.tsx:57-59 | the matching concepts are a subsequence of the hypothesis concepts, each named by the reference |
| Scoring.MatchingCount | src/pages/EvaluationInterface.tsx:57-59 | each concept occurs in the matching list as often as in the hypothesis if the reference names it, and never otherwise |
| Scoring.Conflicting | src/pages/EvaluationInterface.tsx:61-63 | the conflicting concepts are a subsequence of the hypothesis concepts; none is in the reference and each is longer than three characters |
| Scoring.ConflictingCount | src/pages/EvaluationInterface.tsx:61-63 | each concept occurs in the conflicting list as often as in the hypothesis if it is unreferenced and longer than three characters, and never otherwise |
| Scoring.MatchingConflictingDisjoint | src/pages/EvaluationInterface.tsx:57-63 | no concept is both matching and conflicting |
| Scoring.MatchingConflictingBound | src/pages/EvaluationInterface.tsx:57-63 | the two lists together are no longer than the hypothesis list |
| Scoring.ShortUnmatchedIgnored | src/pages/EvaluationInterface.tsx:61-63 | an unreferenced three-character concept is neither matching nor conflicting |
| Ratios.Max | src/pages/EvaluationInterface.tsx:66 | `Math.max` is at least both arguments and equals one of them |
| Scoring.Fidelity | src/pages/EvaluationInterface.tsx:66-67 | the fidelity score lies in [0, 1], with a positive denominator |
| Scoring.FidelityZero | src/pages/EvaluationInterface.tsx:66-67 | the score is 0 exactly when no hypothesis concept is in the reference, including when both lists are empty |
| Scoring.FidelityOne | src/pages/EvaluationInterface.tsx:66-67 | the score is 1 exactly when the hypothesis is non-empty, at least as long as the reference, and entirely shared |
| Scoring.FidelityOfSame | src/pages/EvaluationInterface.tsx:66-67 | identical non-empty concept lists score 1 |
| Scoring.ConflictRatio | src/pages/EvaluationInterface.tsx:70 | the conflict ratio's denominator is positive, so an empty hypothesis counts as one |
| Ratios.ExceedsIsGreater | src/pages/EvaluationInterface.tsx:72-73 | the cross-multiplied test is the same as `num / den > t / 10` on real numbers |
| Scoring.RiskOf | src/pages/EvaluationInterface.tsx:71-73 | High exactly when the ratio is above 0.6; Medium exactly when it is in (0.3, 0.6]; Low exactly when it is at most 0.3 |
| Scoring.RiskMonotone | src/pages/EvaluationInterface.tsx:70-73 | over the same hypothesis length, more conflicting concepts never give a lower risk |
| Scoring.EmptyHypothesisLow | src/pages/EvaluationInterface.tsx:70-73 | a hypothesis without concepts has Low risk |
| Scenarios.RiskBoundaries | src/pages/EvaluationInterface.tsx:71-73 | the thresholds are strict: 3/10 is Low, 4/10 and 6/10 are Medium, 7/10 is High |
| Ratios.Tenths | src/pages/EvaluationInterface.tsx:84 | `(f * 100).toFixed(1)` as tenths of a percent is `1000 * f` rounded to the nearest whole number |
| Ratios.NoHalfTenths | src/pages/EvaluationInterface.tsx:84 | with a denominator of at most ten, `1000 * f` is never half-way, so the direction of rounding never matters |
| Ratios.NatTextRoundTrip | src/pages/EvaluationInterface.tsx:84 | the decimal digits of a number read back to that number |
| Ratios.PercentText | src/pages/EvaluationInterface.tsx:84 | the percentage is digits, a point and one decimal digit, with no leading zero in the whole part |
| Ratios.PercentTextRoundTrip | src/pages/EvaluationInterface.tsx:84 | the percentage text reads back to the rounded tenths of a percent |
| Scenarios.PercentEnds | src/pages/EvaluationInterface.tsx:84 | a score of 0 prints as "0.0" and a score of 1 as "100.0" |
| Rationale.Join | src/pages/EvaluationInterface.tsx:84 | `join(', ')` starts with the first item; `Rationale.JoinRoundTrip` states that the items can be read back |
| Rationale.JoinRoundTrip | src/pages/EvaluationInterface.tsx:84 | a `join(', ')` of non-empty comma-free concepts cuts back into the same concepts, so the rationale names them unambiguously |
| Rationale.StrengthOf | src/pages/EvaluationInterface.tsx:84 | strong exactly above 0.7; moderate exactly above 0.4 and not above 0.7; weak exactly when not above 0.4 |
| Rationale.RationaleIdentifies | src/pages/EvaluationInterface.tsx:84 | the rationale opens with "The hypothesis correctly identifies" exactly when some concept matches, and then lists the matching concepts |
| Rationale.RationaleIntroduces | src/pages/EvaluationInterface.tsx:84 | when there are conflicting concepts, the rationale contains "but introduces conflicting concepts: " with their list and a full stop |
| Rationale.RationaleIntroducesNothing | src/pages/EvaluationInterface.tsx:84 | without conflicting concepts, the rationale never contains that introduction |
| Rationale.RationaleCloses | src/pages/EvaluationInterface.tsx:84 | the rationale ends with the percentage, "% indicates ", the adjective for the score and " alignment." |
| Rationale.RationaleText | src/pages/EvaluationInterface.tsx:84 | the rationale template, specified by `Rationale.RationaleIdentifies`, `Rationale.RationaleIntroduces`, `Rationale.RationaleIntroducesNothing` and `Rationale.RationaleCloses` |
| Scenarios.NothingShared | src/pages/EvaluationInterface.tsx:84 | with nothing shared and no conflicts, the rationale begins "The hypothesis shares no common concepts with the reference ." |
| Scoring.Evaluate | src/pages/EvaluationInterface.tsx:53-85 | the result reports the extracted concepts of both texts and is well formed. Well formed means: lists of at most ten concepts; matching and conflicting drawn from the hypothesis and separated by the reference; a score counting the matches; a risk agreeing with the conflict ratio; a rationale that opens with the shared concepts exactly when there are some |
| ExampleTexts.SpelledIsInterleave | src/pages/EvaluationInterface.tsx:45-51 | text spelled out word by word, each word followed by its separator, is the interleaving of its words and separators |
| ExampleTexts.RomeExtracted | src/components/evaluation/UserInputSection.tsx:24 | the concepts of the example model answer are "the", "eiffel", "tower", "rome", "italy" |
| ExampleTexts.ParisExtracted | src/components/evaluation/TruthReferenceSection.tsx:16 | the concepts of the example reference are "the", "eiffel", "tower", "paris", "france", "located", "the", "champ", "mars": nine, with "the" twice |
| Scenarios.RomeMatching | src/pages/EvaluationInterface.tsx:57-59 | the Rome hypothesis shares "the", "eiffel" and "tower" with the Paris reference |
| Scenarios.RomeConflicting | src/pages/EvaluationInterface.tsx:61-63 | the Rome hypothesis introduces "rome" and "italy" |
| Scenarios.RomeForParis | src/pages/EvaluationInterface.tsx:53-85 | evaluating the example answer against the example reference reports their concepts, shares "the", "eiffel" and "tower", introduces "rome" and "italy", and scores 3/9, printed "33.3", weak, with Medium risk |
| Evaluation.Score | src/pages/EvaluationInterface.tsx:53-85 | the step-by-step computation, including the risk's chain of reassignments, yields the scorer's result |
| Evaluation.EvaluationInterface.constructor | src/pages/EvaluationInterface.tsx:22-24 | the page starts with an empty gold answer, no result and nothing loading |
| Evaluation.EvaluationInterface.SetGoldAnswer | src/pages/EvaluationInterface.tsx:22 | typing a gold answer replaces it and touches nothing else |
| Evaluation.EvaluationInterface.RunEvaluation | src/pages/EvaluationInterface.tsx:28-104 | a blank gold answer gives the Missing Reference notice and changes nothing; otherwise the result is stored and loading ends false, with an Evaluation Complete notice carrying the risk. The gold answer is never changed, and a stored result is always well formed |

## Left out

- Notifications (`toast`): a run returns a `Notice` that names which of the two titles is shown and, for Evaluation Complete, the risk. The description texts and the destructive/default variant are not modelled.
- The simulated two-second API delay (`await new Promise(...)`) is not modelled. The model reads the gold answer once and does not capture re-renders or user edits that interleave with a pending run, nor a second run started while one is loading. `isLoading` is true only inside `RunEvaluation`.
- The `catch` branch ("Evaluation Failed") is not modelled. Nothing in the scorer can throw for string inputs, so the branch is unreachable; the `finally` that clears `isLoading` is modelled.
- Text.Lower: `toLowerCase` is modelled for ASCII capitals only. Two non-ASCII code points lower-case into ASCII word characters: U+212A (Kelvin sign) becomes "k" and U+0130 (capital I with dot) becomes "i" followed by U+0307. Text holding them gives different concepts: for "\u212Aelvin" the page extracts "kelvin" and the model "elvin". The clauses of `Text.ToLower`, `Text.Lower` and `Concepts.Normalize` that a character stays a word character or not hold for the model's case mapping, not for JavaScript's on these two code points. Other case mappings do not change which characters count as `\w`.
- `toFixed(1)` on a binary double is modelled as exact rounding of `1000 * num / den`, half upwards. `Ratios.NoHalfTenths` shows that no half-way case arises for the quotients the page computes.
- The `prompt` argument of `runEvaluation` takes no part in the scoring. It is accepted and ignored.
- The numbers the page displays are not modelled: the fidelity score as a double in the result record and the percentages in the metric and visualisation components. The model keeps the score as an exact fraction.
- The rendering of the page, its child components (header, input sections, metrics, concept visualisation) and the input section's own validation are not part of this model.
