# Quiz grading and session logic of `qcm.py`

This project models the decision logic of a Streamlit multiple-choice and
free-answer quiz in Dafny, with the page code stripped away. It proves
properties of that model. The quiz works on a fixed bank of questions,
shown one at a time. It records the user's answers by question id and,
after submission, shows a score and a verdict for each question.

Modules, one per component:

- `Text` (`text.dfy`): ASCII versions of Python's `str.lower()`,
  `str.strip()` and `str.split()`. Built on them:
  - `Normalize`, for `ans.lower().strip()`;
  - `Words`, for `set(s.lower().strip().split())`;
  - `IsBlank`, for an answer dropped by `if ans.strip()`.
- `WordSimilarity` (`similarity.dfy`): `calculate_similarity`. The result
  is a fraction `Ratio(num, den)` of naturals, not a float. `Recall` works
  on word sets; `Similarity` applies it to the two answers' `Words`.
  `AtLeastFourFifths` is the threshold test `>= 0.8`, stated exactly as
  `5 * num >= 4 * den`.
- `Questions` (`questions.dfy`): the question record and the answer map.
  The record keeps the id, the type (`MultipleChoice`, `FreeAnswer` or any
  other tag) and the list of correct answers.
  - `Lookup` is `answers.get(id, [])`.
- `Grading` (`grading.dfy`): the verdict shown for each question on the
  results page.
  - `FreeAnswerCorrect` is the list comprehension and the nested `any`,
    written the way the source evaluates them.
  - `ChoiceCorrect` is `set(user) == set(correct)`.
  - `Grade` picks between the two. Every type other than `free_answer`
    is graded as a choice question.
- `Scoring` (`scoring.dfy`): the score the results page shows.
  - `Tally` and the looping method `Score` count the questions whose
    recorded list equals `q["correct"]` element by element.
  - `Verdicts` is the per-question detail list.
  - `GradedTally` and `GradedScore` count the questions that list marks
    correct.
- `Session` (`session.dfy`): class `QuizSession`. Its fields are the three
  session-state variables, `currentQuestion`, `answers` and `submitted`.
  It has one method per button of the page, plus the answer recording.
  A button the page does not show in the current state is rejected: the
  method returns `false` and changes nothing.

The results page shows a verdict for each question (qcm.py:113-140). The
comment at qcm.py:117 says that free answers are compared without regard to
case. The score above it is expected to count the questions those verdicts
mark correct. The code (qcm.py:103-107) counts list-equal answers instead,
and does not use the verdicts. The model follows the code (`Tally`,
`Score`, `QuizSession.DisplayedScore`). It records the difference under
"Findings".

## Model

| member | source | states |
|---|---|---|
| `Text.Strip` | qcm.py:119 | the stripped string is empty exactly when the input is all whitespace; otherwise it starts and ends with a non-space |
| `Text.StripCutsEnds` | qcm.py:119 | the stripped string is a slice of the input with only whitespace before and after it; with `Strip`'s contract this fixes the result completely |
| `Text.TrimStart` | qcm.py:119 | what is removed from the front is whitespace, and what is left is a suffix of the input that is empty or starts with a non-space |
| `Text.TrimEnd` | qcm.py:119 | what is removed from the back is whitespace, and what is left is a prefix of the input that is empty or ends with a non-space |
| `Text.Split` | qcm.py:10-11 | every word of `split()` is non-empty and free of whitespace; there are no words exactly when the input is all whitespace |
| `Text.SplitOfAllSpace` | qcm.py:10-11 | an all-whitespace string splits into no words |
| `Text.SplitCons` | qcm.py:10-11 | after a run of whitespace, a maximal run of non-space characters is the next word, and splitting continues from what follows it; with `SplitOfAllSpace` this fixes every word list |
| `Text.NormalizeEmptyIffBlank` | qcm.py:119 | `ans.lower().strip()` is empty exactly for the answers `if ans.strip()` drops |
| `Text.WordsEmptyIffBlank` | qcm.py:10-11 | an answer has an empty word set exactly when it is blank |
| `Text.StripIdempotent` | qcm.py:119 | stripping twice is stripping once |
| `Text.NormalizeIdempotent` | qcm.py:119-120 | normalising twice is normalising once |
| `Text.WordsOfNormalized` | qcm.py:10-11 | the similarity's word set of an already normalised answer is that of the raw answer |
| `Text.NormalizeIgnoresCase` | qcm.py:119-120 | lower-casing before normalising changes nothing |
| `Text.NormalizeIgnoresPadding` | qcm.py:119-120 | whitespace added in front of or behind an answer changes nothing once normalised |
| `WordSimilarity.Recall` | qcm.py:14-18 | the recall has a positive denominator, lies in [0,1], and has the reference word count as denominator when the reference has words |
| `WordSimilarity.RecallCountsMissing` | qcm.py:17-18 | against a reference with words, the numerator is the reference's word count less the number of its words the answer misses |
| `WordSimilarity.RecallThreshold` | qcm.py:14-18 | the recall reaches 0.8 exactly when at most one in five of the reference's words is missing, or, for a reference without words, exactly when the answer has none either |
| `WordSimilarity.SimilarityThreshold` | qcm.py:7-20 | `calculate_similarity(user, reference) >= 0.8` against a reference with words holds exactly when the answer misses at most one in five of its words |
| `WordSimilarity.Similarity` | qcm.py:7-20 | the similarity always lies in [0,1] (numerator at most denominator, denominator positive) |
| `WordSimilarity.SimilarityToBlankReference` | qcm.py:14-15 | against a reference without words the similarity is 1 for a blank answer and 0 for every other answer |
| `WordSimilarity.FullRecall` | qcm.py:17-18 | an answer whose words include all the words of a non-blank reference scores exactly 1, whatever extra words it has |
| `WordSimilarity.SimilarityReflexive` | qcm.py:10-18 | every answer, blank or not, has similarity 1 with itself |
| `WordSimilarity.ExtraWordsNeverLower` | qcm.py:17-18 | for a reference with words, adding words to the answer keeps the denominator and never lowers the numerator |
| `WordSimilarity.ExtraWordsLowerBlankReference` | qcm.py:14-15 | for a reference without words, a blank answer scores 1 and one that has words scores 0 |
| `WordSimilarity.SimilarityOfNormalized` | qcm.py:10-11 | the similarity of the normalised answers equals that of the raw answers |
| `Questions.LookupOfUpdate` | qcm.py:115 | after a list is stored under an id (as qcm.py:53, 61 and 78 do), `answers.get` of that id returns it and of every other id returns what it did before |
| `Grading.NonBlankNormalized` | qcm.py:119 | the filtered, normalised list is no longer than the answer list |
| `Grading.NonBlankNormalizedMembers` | qcm.py:119 | the list holds exactly the normal forms of the non-blank answers |
| `Grading.NormalizeAllMembers` | qcm.py:120 | the normalised correct list holds exactly the normal forms of the correct answers |
| `Grading.AnyCorrectMatchesExists` | qcm.py:125-128 | the inner generator is true exactly when some correct answer matches the given answer |
| `Grading.AnyPairMatchesExists` | qcm.py:125-128 | `any` over the nested generator is true exactly when some (answer, correct answer) pair matches |
| `Grading.FreeAnswerCorrectSound` | qcm.py:119-129 | an accepted free answer has a non-blank entry that matches some correct answer after normalisation, exactly or by similarity |
| `Grading.FreeAnswerCorrectComplete` | qcm.py:119-129 | one such non-blank entry and matching correct answer is enough for acceptance |
| `Grading.FreeAnswerCorrectIff` | qcm.py:119-129 | a free answer is accepted if and only if some non-blank entry equals some normalised correct answer or reaches similarity >= 0.8 with one |
| `Grading.FreeAnswerIsRecall` | qcm.py:119-129 | the exact-match test is subsumed: a free answer is accepted if and only if some non-blank entry has similarity >= 0.8 with some correct answer |
| `Grading.BlankFreeAnswerIncorrect` | qcm.py:123-124 | a free answer whose entries are all empty or whitespace is never correct |
| `Grading.PairDependsOnNormalForms` | qcm.py:119-126 | answers with equal normal forms are blank alike and have equal similarity to correct answers with equal normal forms |
| `Grading.FreeAnswerTransfers` | qcm.py:119-129 | acceptance carries over to answer and correct lists with the same normal forms entry by entry |
| `Grading.FreeAnswerDependsOnNormalForms` | qcm.py:119-129 | the free-answer verdict depends only on the normal forms of the answers and of the correct answers |
| `Grading.FreeAnswerIgnoresCaseAndPadding` | qcm.py:119-120 | upper case in an answer, or whitespace around it, does not change its verdict |
| `Grading.ChoiceCorrectIff` | qcm.py:132 | a choice answer is correct if and only if it has the same members as the correct list |
| `Grading.ChoiceIgnoresOrderAndRepeats` | qcm.py:132 | reordering or repeating the selected options never changes the choice verdict |
| `Grading.ChoiceExactSetRequired` | qcm.py:132 | selecting "B" against the correct answer "B" is correct; selecting "A" and "B" is not |
| `Scoring.Tally` | qcm.py:103-107 | the tally is at most the number of questions |
| `Scoring.Score` | qcm.py:103-107 | the score loop returns the tally of list-equal answers, at most the number of questions |
| `Scoring.TallyCountsCredited` | qcm.py:103-107 | the tally is the number of bank positions whose recorded answer list equals the correct list |
| `Scoring.TallyAtMostAnswered` | qcm.py:105 | questions without a recorded answer never count: the tally is at most the number of answered questions |
| `Scoring.TallyOfNoAnswers` | qcm.py:103-107 | with no recorded answers, as after a restart, the tally is 0 |
| `Scoring.TallyAllCredited` | qcm.py:103-107 | when every recorded answer equals its correct list, the tally is the number of questions |
| `Scoring.VerdictsMeaning` | qcm.py:113-132 | the detail list marks a free answer correct exactly when some non-blank entry reaches similarity 0.8 with some correct answer, and any other question exactly when the recorded and correct lists have the same members |
| `Scoring.UnansweredVerdict` | qcm.py:115-132 | a question with no recorded answer is marked incorrect if it is a free answer, and otherwise only correct when its correct list is empty |
| `Scoring.GradedTally` | qcm.py:113-132 | the number of questions graded correct is at most the number of questions |
| `Scoring.GradedTallyCountsVerdicts` | qcm.py:113-132 | the graded tally is the number of verdicts marked correct in the detail list |
| `Scoring.GradedScore` | qcm.py:103-107 | the corrected score loop returns the number of questions the detail list marks correct |
| `Scoring.CreditedImpliesGraded` | qcm.py:104-132 | what the tally credits, the verdict accepts, for choice questions and for free answers with a non-blank correct answer |
| `Scoring.TallyAtMostGraded` | qcm.py:103-132 | on such a bank the displayed score never exceeds the number of questions marked correct |
| `Scoring.ReorderedSelectionNotCounted` | qcm.py:104-106 | correct list ["B", "A"] answered ["A", "B"]: the tally is 0 although the detail list marks the question correct |
| `Scoring.BlankCorrectCreditedNotGraded` | qcm.py:104-129 | a free-answer question whose only correct answer is blank is credited by the tally yet graded incorrect |
| `Session.QuizSession.constructor` | qcm.py:25-30 | the session starts at question 0 with no answers and not submitted |
| `Session.QuizSession.RecordAnswer` | qcm.py:44-78 | while not submitted, and for a choice or free-answer question, the answer list overwrites the current question's entry; every other id keeps its entry, so `answers.get` of any other id is unchanged; index and phase are unchanged |
| `Session.QuizSession.Previous` | qcm.py:84-87 | moves back one question exactly when not submitted and past the first; nothing else changes |
| `Session.QuizSession.Next` | qcm.py:90-93 | moves forward one question exactly when not submitted and before the last; nothing else changes |
| `Session.QuizSession.Submit` | qcm.py:94-97 | sets `submitted` exactly when not yet submitted and on the last question; the index and answers are unchanged |
| `Session.QuizSession.Restart` | qcm.py:143-146 | on the results page, resets to question 0, no answers and not submitted; elsewhere changes nothing |
| `Session.QuizSession.DisplayedScore` | qcm.py:103-109 | the score shown is the tally of list-equal answers over the bank, at most the bank size |
| `Session.QuizSession.CorrectCount` | qcm.py:113-140 | the number of questions the detail list marks correct |

Every method of `QuizSession` keeps `Valid()`, which says that the current
index names a question of the bank, so navigation never leaves the bank.

## Findings

| source | as written | input that shows it | evidently intended | confidence | as-written member | corrected member |
|---|---|---|---|---|---|---|
| qcm.py:106 | the score credits a question only when the recorded list equals `q["correct"]` element by element, so it ignores the verdicts of qcm.py:118-132 | a two-answer choice question with correct list ["B", "A"] and both boxes ticked, recorded in option order as ["A", "B"]: marked correct, scores 0 (a free answer "Project charter" against "project charter" fails the same way) | the score is the number of questions the detail list marks correct | not executed | `Scoring.ReorderedSelectionNotCounted` | `Scoring.GradedScore` |

## Left out

- Page rendering and widgets are not modelled: titles, checkboxes, radio
  buttons, text inputs, columns, expanders, the metric, `st.rerun` and the
  page configuration. Each answer widget's value reaches the model as a
  plain list of strings, passed to `RecordAnswer`.
- Widget shapes are not modelled, so `RecordAnswer` takes any list. In the
  source, a checkbox list keeps option order, a radio button gives one
  element, and a free answer gives one text box per `number_of_answers`.
- A page run records the answer and then handles a button. The model
  offers these as separate method calls and does not model the run that
  combines them.
- Loading `questions.json` (qcm.py:33-34) is file I/O. The bank is a
  constructor argument, fixed for the session.
- The bank must not be empty: with an empty bank, the page fails at
  qcm.py:38 when it indexes question 0. The constructor therefore requires
  at least one question.
- Only the question fields the decision logic reads are kept. The option
  list and `number_of_answers` shape the recorded answer: the options give
  the choices and the order ticked boxes are recorded in, and
  `number_of_answers` gives the number of text boxes. The length of the
  correct list picks checkboxes or a radio button (qcm.py:46). These
  widget shapes are left out, as the line on widget shapes says. Otherwise these
  fields, and the question text, are used only for display.
- The unused `difflib.SequenceMatcher` import (qcm.py:3) is left out.
- Floating-point division (qcm.py:18) becomes an exact fraction. The test
  `>= 0.8` becomes `5 * num >= 4 * den`. These agree with the float
  comparison unless a reference has more than about 10^15 words.
- Python's Unicode `lower`, `strip` and `split` are modelled for ASCII
  only. Lower-casing changes only A-Z. The whitespace is tab, newline,
  vertical tab, form feed, carriage return, the separators 28-31 and
  space.
- The display strings (comma-joined answers, "Non répondu",
  qcm.py:134-135) are cosmetic and are left out.
